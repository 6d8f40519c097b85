# Fold tree from a secondary-structure string

A Dafny model of the bootcamp fold-tree builder of Rosetta
(`protocols/bootcamp/fold_tree_from_ss.cc`), with proofs about it. The builder takes a
DSSP-like string: `'E'` marks a strand residue, `'H'` a helix residue, anything else a
loop. It works in three steps:

1. `identify_secondary_structure_spans` finds the 1-indexed, inclusive spans of maximal
   runs of one letter, `'E'` or `'H'`. A run closes on any other character, or on the
   other active letter.
2. `identify_gaps_spans` lists the stretches between the spans. It always adds the
   trailing stretch after the last span, even when that stretch is empty.
3. `fold_tree_from_dssp_string` adds fold-tree edges in four loops.
   - Jumps, numbered 1, 2, …, go from the midpoint of the first span to the midpoint of
     every other span, then to the midpoint of the gap entries 2..G−1 (1-based).
   - Peptide edges, labelled −1, go from each span's midpoint to its ends. The first
     span reaches back to residue 1 and the last span forward to residue N. Gap
     entries 2..G−1 get the same two edges.
   - Each peptide edge is skipped when its two ends would coincide.

`find_middle_ss` and the midpoints written inline in the builder are the same
`core::Size` expression.

The modules follow the source:

- `Spans` holds `core::Size` arithmetic (unsigned 64-bit, wrapping), the span type and
  the midpoint.
- `Scanner` holds the span scanner. It is a method with a loop invariant, proved equal
  to a left fold over the string (`Scan`). Separately, `Scan` is proved to be exactly
  the list of maximal runs.
- `ScannerTestVectors` holds the three scanner test cases of `FoldTreeFromSS.cxxtest.hh`.
  Each test string is also written as its runs of equal characters, which keeps the
  scanning proof short; a lemma proves that the runs spell the test string.
- `GapSpans` holds the gap finder. It is a method proved equal to `Gaps`, which is
  proved to partition the residues together with the spans.
- `FoldTreeBuilder` holds the builder. Its four loops are methods proved equal to the
  reference edge list `Build`, which is proved to have the promised layout. A
  `FoldTree` is modelled as the list of `add_edge(start, stop, label)` calls in order.
- `FoldTreeExamples` holds worked fold trees on short strings that show the builder's
  edge cases.

## Quirks of the code that the model keeps

- The trailing gap is always appended. The test at line 219 always holds, so when the
  last span ends at residue N the gap list ends with the empty pair `(N + 1, N)`.
- A single span gets only the edges of the first-span branch (lines 166-172): from its
  midpoint to residue 1 and to the span's end. Nothing after the span is referenced.
- The first span's edge to residue 1 is guarded by `middle != start`, not by
  `middle != 1`. A one-residue span at residue 2 therefore gets no edge to residue 1.
- Both gap loops skip gap entry 1, whether or not it is a leading gap. When the string
  starts with a span, the gap after that span gets no edge.
- There is no error path for a string with no `'E'` and no `'H'`: line 146 reads span 1
  unconditionally. The model makes at least one such letter a precondition.

## Model

| member | source | states |
|---|---|---|
| Spans.Sub | source/src/protocols/bootcamp/fold_tree_from_ss.cc:74 | `core::Size` subtraction is subtraction modulo 2^64; it does not wrap when `a >= b` |
| Spans.Add | source/src/protocols/bootcamp/fold_tree_from_ss.cc:217 | `core::Size` addition is addition modulo 2^64; it does not wrap below 2^64 |
| Spans.FindMiddle | source/src/protocols/bootcamp/fold_tree_from_ss.cc:73-76 | for `beginning <= end` the result lies in `[beginning, end]`, is the lower middle (as far from both ends, or one nearer `beginning`), and is `beginning` when `end - beginning <= 1` |
| Spans.Middle | source/src/protocols/bootcamp/fold_tree_from_ss.cc:146 | the midpoint of a non-empty span lies inside the span |
| Spans.InlineMiddleIsFindMiddle | source/src/protocols/bootcamp/fold_tree_from_ss.cc:153 | the builder's inline `first + ((second - first) / 2)` equals `find_middle_ss(first, second)` for every pair of `core::Size` values, wrapping included |
| Spans.FindMiddleWrapsOnReversedPair | source/src/protocols/bootcamp/fold_tree_from_ss.cc:73-76 | for a reversed pair the subtraction wraps: `find_middle_ss(5, 3)` is `2^63 + 4`, outside the pair |
| Scanner.Step | source/src/protocols/bootcamp/fold_tree_from_ss.cc:47-59 | one loop iteration never drops a closed span and opens at most one new run |
| Scanner.Feed | source/src/protocols/bootcamp/fold_tree_from_ss.cc:46-60 | feeding a stretch of the string keeps every closed span and sees at most one run per character |
| Scanner.Close | source/src/protocols/bootcamp/fold_tree_from_ss.cc:61-64 | the final check keeps every closed span and adds the open run, if any, and nothing else |
| Scanner.Scan | source/src/protocols/bootcamp/fold_tree_from_ss.cc:41-71 | a string of N characters has at most N spans |
| Scanner.IdentifySecondaryStructureSpans | source/src/protocols/bootcamp/fold_tree_from_ss.cc:41-71 | the loop, with the `-1` sentinel for "no open run", returns `Scan` of the string |
| Scanner.StepOpens | source/src/protocols/bootcamp/fold_tree_from_ss.cc:47-49 | an `'E'` or `'H'` with no open run opens a run at that residue and keeps the scan invariant |
| Scanner.StepExtends | source/src/protocols/bootcamp/fold_tree_from_ss.cc:50 | the open run's own letter extends the run and keeps the scan invariant |
| Scanner.StepCloses | source/src/protocols/bootcamp/fold_tree_from_ss.cc:50-58 | any other character closes the open run at the previous residue; the other active letter opens the next run at once |
| Scanner.StepIdles | source/src/protocols/bootcamp/fold_tree_from_ss.cc:54-59 | a loop character with no open run changes nothing |
| Scanner.CloseRun | source/src/protocols/bootcamp/fold_tree_from_ss.cc:61-64 | closing the open run (on a different character or at the end) appends a maximal run; the spans stay ordered and cover every active letter so far |
| Scanner.ScanIsMaximalRuns | source/src/protocols/bootcamp/fold_tree_from_ss.cc:44-64 | every span is a maximal run of its opening letter, the spans are ordered and disjoint, and every `'E'`/`'H'` lies in a span |
| Scanner.RunsAfterUnique | source/src/protocols/bootcamp/fold_tree_from_ss.cc:44-64 | there is only one list of maximal runs for a string |
| Scanner.ScanCharacterized | source/src/protocols/bootcamp/fold_tree_from_ss.cc:44-64 | a span list is the scanner's result if and only if it is the list of maximal runs |
| Scanner.ScanShape | source/src/protocols/bootcamp/fold_tree_from_ss.cc:44-64 | every span satisfies `1 <= start <= end <= N`; the spans are strictly increasing and pairwise disjoint |
| Scanner.ScanEmptyIff | source/src/protocols/bootcamp/fold_tree_from_ss.cc:44-64 | the result is empty exactly when the string holds no `'E'` and no `'H'` |
| Scanner.ScanSplitsOnLetterChange | source/src/protocols/bootcamp/fold_tree_from_ss.cc:50-52 | a span followed by the other active letter is followed at once by a span starting on the next residue |
| ScannerTestVectors.Case1Text | source/test/protocols/bootcamp/FoldTreeFromSS.cxxtest.hh:59 | the run encoding used for the first test's proof spells exactly the test string of `test_case_1` |
| ScannerTestVectors.Case2Text | source/test/protocols/bootcamp/FoldTreeFromSS.cxxtest.hh:75 | the run encoding used for the second test's proof spells exactly the test string of `test_case_2` |
| ScannerTestVectors.Case3Text | source/test/protocols/bootcamp/FoldTreeFromSS.cxxtest.hh:91 | the run encoding used for the third test's proof spells exactly the test string of `test_case_3` |
| ScannerTestVectors.ScanTestCase1 | source/test/protocols/bootcamp/FoldTreeFromSS.cxxtest.hh:58-72 | the first test string yields exactly the seven reference spans |
| ScannerTestVectors.ScanTestCase2 | source/test/protocols/bootcamp/FoldTreeFromSS.cxxtest.hh:74-88 | the second test string yields exactly the seven reference spans, including the letter changes at (29,40),(41,50),(51,57) |
| ScannerTestVectors.ScanTestCase3 | source/test/protocols/bootcamp/FoldTreeFromSS.cxxtest.hh:90-104 | the third test string yields exactly the nine reference spans, including the one-residue spans |
| GapSpans.GapsFrom | source/src/protocols/bootcamp/fold_tree_from_ss.cc:213-218 | the loop's gaps from span `k` on number at most one per remaining span |
| GapSpans.Gaps | source/src/protocols/bootcamp/fold_tree_from_ss.cc:207-223 | the gap list has at most one entry more than the span list |
| GapSpans.IdentifyGapsSpans | source/src/protocols/bootcamp/fold_tree_from_ss.cc:207-223 | the loop with its running `start_position` returns `Gaps` of the spans |
| GapSpans.Between | source/src/protocols/bootcamp/fold_tree_from_ss.cc:212-218 | the loop's gaps on unbounded integers number at most one per remaining span |
| GapSpans.GapsFromIsBetween | source/src/protocols/bootcamp/fold_tree_from_ss.cc:212-218 | on well-formed spans no `core::Size` operation of the loop wraps: its gaps are the stretches between spans computed on unbounded integers |
| GapSpans.GapsShape | source/src/protocols/bootcamp/fold_tree_from_ss.cc:212-222 | the gap list is never empty; its last entry is always the trailing gap `(last.end + 1, N)`, the empty `(N + 1, N)` when the last span ends at N; every other entry is non-empty and inside `[1, N]`; the entries are ordered |
| GapSpans.GapsLeading | source/src/protocols/bootcamp/fold_tree_from_ss.cc:212-216 | the first gap entry starts at residue 1 exactly when the first span starts after residue 1, and is then `(1, first.start - 1)`; otherwise every gap lies after the first span |
| GapSpans.GapsMaximal | source/src/protocols/bootcamp/fold_tree_from_ss.cc:213-218 | every gap but the trailing one ends just before a span, and every gap starts at residue 1 or just after a span: gaps between abutting spans are never emitted |
| GapSpans.GapsPartition | source/src/protocols/bootcamp/fold_tree_from_ss.cc:212-222 | a residue of `[1, N]` is in a gap exactly when it is in no span |
| GapSpans.GapsCount | source/src/protocols/bootcamp/fold_tree_from_ss.cc:212-222 | there are at most N + 1 spans and gap entries together |
| FoldTreeBuilder.Jumps | source/src/protocols/bootcamp/fold_tree_from_ss.cc:151-160 | a jump loop over targets `lo..hi` adds `hi - lo` jumps, none when the range is empty |
| FoldTreeBuilder.Peptide | source/src/protocols/bootcamp/fold_tree_from_ss.cc:167-169 | a guarded `add_edge(middle, to, -1)` adds one edge when the guard holds and none otherwise |
| FoldTreeBuilder.SpanPeptides | source/src/protocols/bootcamp/fold_tree_from_ss.cc:164-189 | one span gets at most two peptide edges |
| FoldTreeBuilder.SpanPeptideList | source/src/protocols/bootcamp/fold_tree_from_ss.cc:162-191 | the first `hi` spans get at most `2 * hi` peptide edges |
| FoldTreeBuilder.GapPeptides | source/src/protocols/bootcamp/fold_tree_from_ss.cc:195-201 | one gap entry gets at most two peptide edges |
| FoldTreeBuilder.GapPeptideList | source/src/protocols/bootcamp/fold_tree_from_ss.cc:193-202 | gap entries `lo..hi` get at most two peptide edges each |
| FoldTreeBuilder.Build | source/src/protocols/bootcamp/fold_tree_from_ss.cc:146-202 | with J jumps, J = (K − 1) + max(G − 2, 0), the builder adds at least J and at most 3J + 2 edges |
| FoldTreeBuilder.FoldTree | source/src/protocols/bootcamp/fold_tree_from_ss.cc:131-205 | the fold tree of a string of N residues has fewer than 3N edges |
| FoldTreeBuilder.BuildableShape | source/src/protocols/bootcamp/fold_tree_from_ss.cc:134-146 | a string with an `'E'` or `'H'` gives at least one span, well-formed spans and at least one gap entry, so every index the builder reads exists |
| FoldTreeBuilder.FoldTreeFromDsspString | source/src/protocols/bootcamp/fold_tree_from_ss.cc:131-205 | the builder returns `FoldTree` of the string: `Build` applied to its spans, its gaps and its length |
| FoldTreeBuilder.AddEdges | source/src/protocols/bootcamp/fold_tree_from_ss.cc:146-202 | the four loops together append exactly `Build(spans, gaps, N)` |
| FoldTreeBuilder.AddAllJumps | source/src/protocols/bootcamp/fold_tree_from_ss.cc:147-160 | the two jump loops, sharing `jump_number`, add the span jumps numbered from 1, then the gap jumps numbered on from K |
| FoldTreeBuilder.AddJumps | source/src/protocols/bootcamp/fold_tree_from_ss.cc:151-160 | one jump loop appends a jump from the root to each target's midpoint, numbered on from `jump_number`, and advances `jump_number` by the number of targets |
| FoldTreeBuilder.AddPeptide | source/src/protocols/bootcamp/fold_tree_from_ss.cc:167-169 | a guarded `add_edge(middle, to, -1)` appends the edge exactly when the guard holds |
| FoldTreeBuilder.AddAllPeptides | source/src/protocols/bootcamp/fold_tree_from_ss.cc:162-202 | the two peptide loops append the edges of every span, then those of gap entries 2..G−1 |
| FoldTreeBuilder.AddSpanPeptides | source/src/protocols/bootcamp/fold_tree_from_ss.cc:162-191 | the span loop appends the peptide edges of every span, in order |
| FoldTreeBuilder.AddPeptidesOfSpan | source/src/protocols/bootcamp/fold_tree_from_ss.cc:164-189 | the three branches (first span, last span, other spans) append the span's two guarded edges as `SpanPeptides` gives them |
| FoldTreeBuilder.AddGapPeptides | source/src/protocols/bootcamp/fold_tree_from_ss.cc:193-202 | the gap loop appends the peptide edges of each visited gap entry, in order |
| FoldTreeBuilder.AddPeptidesOfGap | source/src/protocols/bootcamp/fold_tree_from_ss.cc:195-201 | one gap entry gets edges from its midpoint to its start and to its end, each only when different |
| FoldTreeBuilder.JumpAt | source/src/protocols/bootcamp/fold_tree_from_ss.cc:151-160 | the `t`-th jump of a loop goes from the root to the midpoint of target `lo + t` and is numbered `first + t` |
| FoldTreeBuilder.JumpsAll | source/src/protocols/bootcamp/fold_tree_from_ss.cc:151-160 | the same for every jump of the loop at once |
| FoldTreeBuilder.BuildParts | source/src/protocols/bootcamp/fold_tree_from_ss.cc:146-202 | the edge list is the span jumps, then the gap jumps, then the peptide edges |
| FoldTreeBuilder.BuildJumps | source/src/protocols/bootcamp/fold_tree_from_ss.cc:146-160 | the first K − 1 edges are jumps from the root to the midpoints of spans 2..K, numbered 1..K−1; the next max(G − 2, 0) are jumps to the midpoints of gap entries 2..G−1, numbered on |
| FoldTreeBuilder.BuildPeptides | source/src/protocols/bootcamp/fold_tree_from_ss.cc:162-202 | after the jumps come exactly the span peptide edges, then the gap peptide edges |
| FoldTreeBuilder.PeptideGood | source/src/protocols/bootcamp/fold_tree_from_ss.cc:167-169 | a guarded peptide edge between residues of `[1, N]` is never a self-loop |
| FoldTreeBuilder.SpanPeptidesGood | source/src/protocols/bootcamp/fold_tree_from_ss.cc:164-189 | the peptide edges of a span inside `[1, N]` are labelled −1, join different residues, and stay inside `[1, N]` |
| FoldTreeBuilder.SpanPeptideListGood | source/src/protocols/bootcamp/fold_tree_from_ss.cc:162-191 | the same for the peptide edges of all spans |
| FoldTreeBuilder.GapPeptidesGood | source/src/protocols/bootcamp/fold_tree_from_ss.cc:195-201 | the same for the peptide edges of a gap entry inside `[1, N]` |
| FoldTreeBuilder.GapPeptideListGood | source/src/protocols/bootcamp/fold_tree_from_ss.cc:193-202 | the same for the peptide edges of a range of gap entries inside `[1, N]` |
| FoldTreeBuilder.BuildPeptidesGood | source/src/protocols/bootcamp/fold_tree_from_ss.cc:162-202 | every edge after the jumps is labelled −1, joins different residues and stays inside `[1, N]` |
| FoldTreeBuilder.BuildJumpsFirst | source/src/protocols/bootcamp/fold_tree_from_ss.cc:146-202 | for well-formed input the edge list has the jump layout of `JumpsFirst` |
| FoldTreeBuilder.BuildEdgesInRange | source/src/protocols/bootcamp/fold_tree_from_ss.cc:146-202 | for well-formed input no edge is a self-loop and every endpoint lies in `[1, N]` |
| FoldTreeBuilder.InteriorGaps | source/src/protocols/bootcamp/fold_tree_from_ss.cc:156-158 | gap entries 2..G−1 of a buildable string are non-empty, inside the string, with midpoints outside the first span |
| FoldTreeBuilder.FoldTreeJumps | source/src/protocols/bootcamp/fold_tree_from_ss.cc:146-160 | the fold tree's jumps all start at the midpoint of span 1; they go to the midpoints of spans 2..K, then of gap entries 2..G−1; they are labelled exactly 1, 2, …, (K−1)+max(G−2, 0) in order; every later edge is labelled −1; with K = 1 and G ≤ 2 there is no jump |
| FoldTreeBuilder.FoldTreeEdgesInRange | source/src/protocols/bootcamp/fold_tree_from_ss.cc:151-202 | no edge of the fold tree joins a residue to itself, and every endpoint lies in `[1, N]` |
| FoldTreeBuilder.FoldTreeSingleSpan | source/src/protocols/bootcamp/fold_tree_from_ss.cc:166-172 | with a single span the tree is only that span's first-span edges: midpoint to residue 1 unless the midpoint is the span's start, then midpoint to the span's end unless equal |
| FoldTreeExamples.SpanAtStartSkipsFirstGap | source/src/protocols/bootcamp/fold_tree_from_ss.cc:156-160 | for `"EE  HH"` the gaps are `(3,4)` and the empty trailing `(7,6)`; the tree is one jump (1→5) and two peptide edges, and gap `(3,4)` is never visited |
| FoldTreeExamples.SingleSpanExample | source/src/protocols/bootcamp/fold_tree_from_ss.cc:166-172 | for `"EEEL"` the only gap is the trailing `(4,4)`; the tree is 2→1 and 2→3, so residue 4 is never referenced |
| FoldTreeExamples.LeadingGapExample | source/src/protocols/bootcamp/fold_tree_from_ss.cc:131-205 | for `"LEEELLHHHL"` the tree is jumps 3→8 (1) and 3→5 (2), then peptide edges 3→1, 3→4, 8→7, 8→10, 5→6 |
| FoldTreeExamples.SingleResidueSpanExample | source/src/protocols/bootcamp/fold_tree_from_ss.cc:166-172 | for `"LEL"` both guards of the single span fail, so the tree has no edge |

## Left out

- The `std::cout` tracing (fold_tree_from_ss.cc:65-69, 135-145) prints only. It is not modelled.
- The commented-out earlier builder (fold_tree_from_ss.cc:78-126) is dead code.
- `FoldTree` is modelled as its list of `add_edge` calls. Its internals and `check_fold_tree()` are not part of this model. Neither are the tests `test_4` and `test_5` (FoldTreeFromSS.cxxtest.hh:106-120), which only call `check_fold_tree()`.
- The tree is not proved to be a valid fold tree. Validity depends on the semantics of `FoldTree` edges, which are not modelled. The model shows concrete inputs where residues are never referenced: for `"EE  HH"` residues 3 and 4 (gap entry 1 is skipped), for `"EEEL"` residue 4 (a single span), for `"LEL"` every residue (the one-residue span gets no edges, so the tree is empty).
- A Dafny `char` stands for one byte of the `std::string`. For non-ASCII input `size()` counts bytes, so N and the residue numbers are byte positions, not the positions of Unicode characters that `|s|` would count.
- `add_edge` takes `int` arguments. The conversion of `core::Size` values to `int` is not modelled; edges hold unbounded integers.
- Scanner.IdentifySecondaryStructureSpans: `strand_start` is an integer with −1 for no open run. The source stores it in a `core::Size` and tests `int(strand_start) == -1`. That test also holds for any index whose low 32 bits are all ones, so on strings of 2^32 or more residues the source can lose an open run; the model does not reproduce this.
- FoldTreeBuilder.FoldTreeFromDsspString: requires fewer than 2^64 − 1 residues, so that the trailing gap's `last.end + 1` does not wrap.
- FoldTreeBuilder.FoldTreeFromDsspString: requires at least one `'E'` or `'H'`, because the source reads span 1 unconditionally.
- FoldTreeBuilder.AddEdges: requires a non-empty gap list, because with an empty one `gap_boundaries.size() - 1` wraps and the gap loops read out of range.
- FoldTreeBuilder.AddEdges: also requires at most N + 1 spans and gap entries together, which `GapSpans.GapsCount` proves for the caller's input. This keeps `jump_number` from wrapping.
- GapSpans.GapsShape, GapSpans.GapsLeading, GapSpans.GapsMaximal, GapSpans.GapsPartition, GapSpans.GapsCount: these hold for well-formed span lists, as the scanner produces them. `GapSpans.IdentifyGapsSpans` itself is modelled for any list with at least one span.
- The header `fold_tree_from_ss.hh` gives only signatures. The remaining files of the repository are not part of this model.
