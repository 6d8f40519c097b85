/** `fold_tree_from_dssp_string`: a fold tree built from the secondary-structure spans
    of a DSSP string and the gaps between them. The tree is modelled by the list of
    edges handed to `FoldTree::add_edge`, in call order. */
module FoldTreeBuilder {
  import opened Spans
  import opened Scanner
  import opened GapSpans

  /** An `add_edge(start, stop, label)` call: a jump when `edgeLabel` is positive, a
      peptide edge when it is `PEPTIDE`. */
  datatype Edge = Edge(start: int, stop: int, edgeLabel: int)

  /** The label the builder gives every peptide edge. */
  const PEPTIDE: int := -1

  /** Jump edges from `root` to the midpoints of `targets[lo..hi]`, numbered on from
      `first`, in the order the loops add them. */
  function Jumps(root: int, targets: seq<Span>, lo: nat, hi: nat, first: int): (edges: seq<Edge>)
    requires hi <= |targets| && FitsSize(targets)
    ensures |edges| == if hi <= lo then 0 else hi - lo
    decreases hi
  {
    if hi <= lo then []
    else Jumps(root, targets, lo, hi - 1, first) + [Edge(root, Middle(targets[hi - 1]), first + (hi - 1 - lo))]
  }

  /** A peptide edge from `from` to `to`, added only when `differ` holds. */
  function Peptide(from: int, to: int, differ: bool): (edges: seq<Edge>)
    ensures |edges| <= 1 && (edges != [] <==> differ)
  {
    if differ then [Edge(from, to, PEPTIDE)] else []
  }

  /** The peptide edges of span `i` (0-based) of `spans` on a string of `n` residues.
      The first span reaches back to residue 1, the last one (when it is not also the
      first) forward to residue `n`, every other span to its own two ends; each edge
      is skipped when the midpoint already is the end it is guarded against. */
  function SpanPeptides(spans: seq<Span>, n: int, i: nat): (edges: seq<Edge>)
    requires i < |spans| && FitsSize(spans)
    ensures |edges| <= 2
  {
    var sp := spans[i];
    var m := Middle(sp);
    var low := if i == 0 then 1 else sp.start;
    var high := if 0 < i == |spans| - 1 then n else sp.end;
    Peptide(m, low, m != sp.start) + Peptide(m, high, m != high)
  }

  /** The peptide edges of the spans `spans[..hi]`, in order. */
  function SpanPeptideList(spans: seq<Span>, n: int, hi: nat): (edges: seq<Edge>)
    requires hi <= |spans| && FitsSize(spans)
    ensures |edges| <= 2 * hi
  {
    if hi == 0 then [] else SpanPeptideList(spans, n, hi - 1) + SpanPeptides(spans, n, hi - 1)
  }

  /** The peptide edges of a gap entry: from its midpoint to each of its two ends. */
  function GapPeptides(gap: Span): (edges: seq<Edge>)
    requires gap.start < SIZE_LIMIT && gap.end < SIZE_LIMIT
    ensures |edges| <= 2
  {
    var m := Middle(gap);
    Peptide(m, gap.start, m != gap.start) + Peptide(m, gap.end, m != gap.end)
  }

  /** The peptide edges of the gap entries `gaps[lo..hi]`, in order. */
  function GapPeptideList(gaps: seq<Span>, lo: nat, hi: nat): (edges: seq<Edge>)
    requires hi <= |gaps| && FitsSize(gaps)
    ensures |edges| <= 2 * (if hi <= lo then 0 else hi - lo)
    decreases hi
  {
    if hi <= lo then [] else GapPeptideList(gaps, lo, hi - 1) + GapPeptides(gaps[hi - 1])
  }

  /** The edges the builder adds, given the spans, the gap entries and the length `n`:
      jumps from the midpoint of the first span to the midpoints of the other spans, then
      to the midpoints of the gap entries but the first and the last; then the peptide
      edges of every span; then those of the same gap entries. */
  function Build(spans: seq<Span>, gaps: seq<Span>, n: int): (edges: seq<Edge>)
    requires |spans| >= 1 && |gaps| >= 1 && FitsSize(spans) && FitsSize(gaps)
    ensures JumpCount(spans, gaps) <= |edges| <= 3 * JumpCount(spans, gaps) + 2
  {
    var root := Middle(spans[0]);
    Jumps(root, spans, 1, |spans|, 1)
    + Jumps(root, gaps, 1, |gaps| - 1, |spans|)
    + SpanPeptideList(spans, n, |spans|)
    + GapPeptideList(gaps, 1, |gaps| - 1)
  }

  /** What the builder needs of its input: at least one 'E' or 'H' (it reads the first
      span unconditionally), and a length whose successor fits in a `core::Size`. */
  predicate Buildable(s: string)
  {
    HasActive(s) && |s| + 1 < SIZE_LIMIT
  }

  /** The spans of a buildable string are non-empty and well formed, and so is the gap
      list of those spans. */
  lemma BuildableShape(s: string)
    requires Buildable(s)
    ensures var spans := Scan(s);
      |spans| >= 1 && WellFormed(spans, |s|) && FitsSize(spans)
      && |Gaps(spans, |s|)| >= 1
  {
    ScanShape(s);
    ScanEmptyIff(s);
    GapsShape(Scan(s), |s|);
  }

  /** `fold_tree_from_dssp_string` as a function of the string. */
  function FoldTree(s: string): (edges: seq<Edge>)
    requires Buildable(s)
    ensures |edges| < 3 * |s|
  {
    BuildableShape(s);
    var spans := Scan(s);
    GapsCount(spans, |s|);
    Build(spans, Gaps(spans, |s|), |s|)
  }

  /** `fold_tree_from_dssp_string(dssp_string)`: the spans, the gaps between them, and
      the edges built from both. */
  method FoldTreeFromDsspString(dsspString: string) returns (foldTree: seq<Edge>)
    requires Buildable(dsspString)
    ensures foldTree == FoldTree(dsspString)
  {
    var ssBoundaries := IdentifySecondaryStructureSpans(dsspString);
    var n: Size := |dsspString|;
    assert |ssBoundaries| >= 1 && FitsSize(ssBoundaries) by { BuildableShape(dsspString); }
    var gapBoundaries := IdentifyGapsSpans(ssBoundaries, n);
    assert |gapBoundaries| >= 1 && |ssBoundaries| + |gapBoundaries| <= n + 1 by {
      BuildableShape(dsspString);
      GapsCount(ssBoundaries, n);
    }
    foldTree := AddEdges(ssBoundaries, gapBoundaries, n);
  }

  /** The four loops of `fold_tree_from_dssp_string` in turn, each appending to the edge
      list, the first two numbering the jumps on from 1. `jump_number` is a
      `core::Size`; there are fewer jumps than spans and gaps, so it does not wrap. */
  method AddEdges(ssBoundaries: seq<Span>, gapBoundaries: seq<Span>, n: Size) returns (foldTree: seq<Edge>)
    requires |ssBoundaries| >= 1 && |gapBoundaries| >= 1
    requires FitsSize(ssBoundaries) && FitsSize(gapBoundaries)
    requires |ssBoundaries| + |gapBoundaries| <= n + 1
    ensures foldTree == Build(ssBoundaries, gapBoundaries, n)
  {
    var first := ssBoundaries[0];
    var root := Add(first.start, Sub(first.end, first.start) / 2);
    InlineMiddleIsFindMiddle(first.start, first.end);
    // The gap loops run over the entries 2..size-1 (1-based): none when there are
    // fewer than three entries.
    var gapEnd := if |gapBoundaries| >= 2 then |gapBoundaries| - 1 else 1;
    var jumps := AddAllJumps(ssBoundaries, gapBoundaries, root, gapEnd);
    foldTree := AddAllPeptides(jumps, ssBoundaries, gapBoundaries, n, gapEnd);
    BuildConcat(ssBoundaries, gapBoundaries, n, root, gapEnd, jumps, foldTree);
  }

  /** The two jump loops, sharing `jump_number`: first one jump per span but the first,
      then one per gap entry `1..gapEnd` (0-based). */
  method AddAllJumps(spans: seq<Span>, gaps: seq<Span>, root: Size, gapEnd: nat) returns (jumps: seq<Edge>)
    requires |spans| >= 1 && 1 <= gapEnd <= |gaps| && FitsSize(spans) && FitsSize(gaps)
    requires |spans| + |gaps| <= SIZE_LIMIT
    ensures jumps == Jumps(root, spans, 1, |spans|, 1) + Jumps(root, gaps, 1, gapEnd, |spans|)
  {
    var jumpNumber: Size := 0;
    var spanJumps;
    spanJumps, jumpNumber := AddJumps([], jumpNumber, root, spans, 1, |spans|);
    assert spanJumps == Jumps(root, spans, 1, |spans|, 1);
    assert jumpNumber + 1 == |spans|;
    jumps, jumpNumber := AddJumps(spanJumps, jumpNumber, root, gaps, 1, gapEnd);
  }

  /** The two peptide loops: the edges of every span, then of the gap entries `1..gapEnd`
      (0-based). */
  method AddAllPeptides(tree: seq<Edge>, spans: seq<Span>, gaps: seq<Span>, n: Size, gapEnd: nat)
    returns (tree': seq<Edge>)
    requires 1 <= gapEnd <= |gaps| && FitsSize(spans) && FitsSize(gaps)
    ensures tree' == tree + (SpanPeptideList(spans, n, |spans|) + GapPeptideList(gaps, 1, gapEnd))
  {
    var spanPeptides := AddSpanPeptides(tree, spans, n);
    tree' := AddGapPeptides(spanPeptides, gaps, 1, gapEnd);
    Assoc(tree, SpanPeptideList(spans, n, |spans|), GapPeptideList(gaps, 1, gapEnd));
  }

  /** The jumps and the peptide edges, appended one after the other, make up `Build`. */
  lemma BuildConcat(spans: seq<Span>, gaps: seq<Span>, n: int, root: int, gapEnd: nat,
                    jumps: seq<Edge>, tree: seq<Edge>)
    requires |spans| >= 1 && |gaps| >= 1 && FitsSize(spans) && FitsSize(gaps)
    requires root == Middle(spans[0])
    requires gapEnd == if |gaps| >= 2 then |gaps| - 1 else 1
    requires jumps == Jumps(root, spans, 1, |spans|, 1) + Jumps(root, gaps, 1, gapEnd, |spans|)
    requires tree == jumps + (SpanPeptideList(spans, n, |spans|) + GapPeptideList(gaps, 1, gapEnd))
    ensures tree == Build(spans, gaps, n)
  {
    if |gaps| == 1 {
      assert Jumps(root, gaps, 1, 1, |spans|) == [] == Jumps(root, gaps, 1, 0, |spans|);
      assert GapPeptideList(gaps, 1, 1) == [] == GapPeptideList(gaps, 1, 0);
    }
    BuildParts(spans, gaps, n);
  }

  /** The jump loops of the builder: for each of `targets[lo..hi]`, the next jump number
      and a jump from `root` to the target's midpoint, computed inline. */
  method AddJumps(tree: seq<Edge>, jumpNumber: Size, root: Size, targets: seq<Span>, lo: nat, hi: nat)
    returns (tree': seq<Edge>, jumpNumber': Size)
    requires lo <= hi <= |targets| && FitsSize(targets)
    requires jumpNumber + |targets| < SIZE_LIMIT
    ensures tree' == tree + Jumps(root, targets, lo, hi, jumpNumber + 1)
    ensures jumpNumber' == jumpNumber + (hi - lo)
  {
    tree', jumpNumber' := tree, jumpNumber;
    for ii := lo to hi
      invariant jumpNumber' == jumpNumber + (ii - lo)
      invariant tree' == tree + Jumps(root, targets, lo, ii, jumpNumber + 1)
    {
      jumpNumber' := jumpNumber' + 1;
      var sp := targets[ii];
      var middle := Add(sp.start, Sub(sp.end, sp.start) / 2);
      InlineMiddleIsFindMiddle(sp.start, sp.end);
      Assoc(tree, Jumps(root, targets, lo, ii, jumpNumber + 1), [Edge(root, middle, jumpNumber')]);
      tree' := tree' + [Edge(root, middle, jumpNumber')];
    }
  }

  /** `if (middle != to) add_edge(middle, to, -1)`, with the guard `differ`. */
  method AddPeptide(tree: seq<Edge>, from: int, to: int, differ: bool) returns (tree': seq<Edge>)
    ensures tree' == tree + Peptide(from, to, differ)
  {
    tree' := tree;
    if differ {
      tree' := tree' + [Edge(from, to, PEPTIDE)];
    }
  }

  /** The span loop of the builder: the peptide edges of every span, in order. */
  method AddSpanPeptides(tree: seq<Edge>, spans: seq<Span>, n: Size) returns (tree': seq<Edge>)
    requires FitsSize(spans)
    ensures tree' == tree + SpanPeptideList(spans, n, |spans|)
  {
    tree' := tree;
    for ii := 0 to |spans|
      invariant tree' == tree + SpanPeptideList(spans, n, ii)
    {
      var next := AddPeptidesOfSpan(tree', spans, n, ii);
      Assoc(tree, SpanPeptideList(spans, n, ii), SpanPeptides(spans, n, ii));
      tree' := next;
    }
  }

  /** One turn of the span loop: the peptide edges of span `ii`, midpoint computed inline. */
  method AddPeptidesOfSpan(tree: seq<Edge>, spans: seq<Span>, n: Size, ii: nat) returns (tree': seq<Edge>)
    requires ii < |spans| && FitsSize(spans)
    ensures tree' == tree + SpanPeptides(spans, n, ii)
  {
    var sp := spans[ii];
    var middle := Add(sp.start, Sub(sp.end, sp.start) / 2);
    InlineMiddleIsFindMiddle(sp.start, sp.end);
    var low;
    if ii == 0 {
      low := AddPeptide(tree, middle, 1, middle != sp.start);
      tree' := AddPeptide(low, middle, sp.end, middle != sp.end);
    } else if ii == |spans| - 1 {
      low := AddPeptide(tree, middle, sp.start, middle != sp.start);
      tree' := AddPeptide(low, middle, n, middle != n);
    } else {
      low := AddPeptide(tree, middle, sp.start, middle != sp.start);
      tree' := AddPeptide(low, middle, sp.end, middle != sp.end);
    }
    Assoc(tree, low[|tree|..], tree'[|low|..]);
  }

  /** The last gap loop of the builder: the peptide edges of `gaps[lo..hi]`, in order. */
  method AddGapPeptides(tree: seq<Edge>, gaps: seq<Span>, lo: nat, hi: nat) returns (tree': seq<Edge>)
    requires lo <= hi <= |gaps| && FitsSize(gaps)
    ensures tree' == tree + GapPeptideList(gaps, lo, hi)
  {
    tree' := tree;
    for ii := lo to hi
      invariant tree' == tree + GapPeptideList(gaps, lo, ii)
    {
      var next := AddPeptidesOfGap(tree', gaps[ii]);
      GapLoopStep(tree, gaps, lo, ii, tree', next);
      tree' := next;
    }
  }

  /** Appending the peptide edges of gap entry `ii` extends the gap loop by one turn. */
  lemma GapLoopStep(tree: seq<Edge>, gaps: seq<Span>, lo: nat, ii: nat, prev: seq<Edge>, next: seq<Edge>)
    requires lo <= ii < |gaps| && FitsSize(gaps)
    requires prev == tree + GapPeptideList(gaps, lo, ii)
    requires next == prev + GapPeptides(gaps[ii])
    ensures next == tree + GapPeptideList(gaps, lo, ii + 1)
  {
    Assoc(tree, GapPeptideList(gaps, lo, ii), GapPeptides(gaps[ii]));
  }

  /** One turn of the last gap loop: the peptide edges of one gap entry, midpoint
      computed inline. */
  method AddPeptidesOfGap(tree: seq<Edge>, gap: Span) returns (tree': seq<Edge>)
    requires gap.start < SIZE_LIMIT && gap.end < SIZE_LIMIT
    ensures tree' == tree + GapPeptides(gap)
  {
    var middle := Add(gap.start, Sub(gap.end, gap.start) / 2);
    InlineMiddleIsFindMiddle(gap.start, gap.end);
    var low := AddPeptide(tree, middle, gap.start, middle != gap.start);
    tree' := AddPeptide(low, middle, gap.end, middle != gap.end);
    Assoc(tree, low[|tree|..], tree'[|low|..]);
  }

  /** Appending to an edge list in two steps is appending the two parts at once. */
  lemma Assoc(a: seq<Edge>, b: seq<Edge>, c: seq<Edge>)
    ensures (a + b) + c == a + (b + c)
  {
  }

  /** The `t`-th jump from `targets[lo..hi]` goes from `root` to the midpoint of
      `targets[lo + t]` and is numbered `first + t`. */
  lemma {:induction false} JumpAt(root: int, targets: seq<Span>, lo: nat, hi: nat, first: int, t: nat)
    requires hi <= |targets| && FitsSize(targets) && lo + t < hi
    ensures t < |Jumps(root, targets, lo, hi, first)|
    ensures Jumps(root, targets, lo, hi, first)[t] == Edge(root, Middle(targets[lo + t]), first + t)
    decreases hi
  {
    if lo + t < hi - 1 {
      JumpAt(root, targets, lo, hi - 1, first, t);
    }
  }

  /** A peptide edge that joins two different residues of `[1, n]`. */
  predicate GoodPeptide(e: Edge, n: int)
  {
    e.edgeLabel == PEPTIDE && e.start != e.stop && 1 <= e.start <= n && 1 <= e.stop <= n
  }

  /** Every edge of the list is a good peptide edge. */
  predicate AllGood(edges: seq<Edge>, n: int)
  {
    forall k :: 0 <= k < |edges| ==> GoodPeptide(edges[k], n)
  }

  lemma GoodConcat(a: seq<Edge>, b: seq<Edge>, n: int)
    requires AllGood(a, n) && AllGood(b, n)
    ensures AllGood(a + b, n)
  {
    forall k | 0 <= k < |a + b| ensures GoodPeptide((a + b)[k], n) {
      if k < |a| { assert (a + b)[k] == a[k]; } else { assert (a + b)[k] == b[k - |a|]; }
    }
  }

  /** A guarded peptide edge between two residues of `[1, n]` is good: the guard skips
      it exactly when it would join a residue to itself. */
  lemma PeptideGood(from: int, to: int, n: int)
    requires 1 <= from <= n && 1 <= to <= n
    ensures AllGood(Peptide(from, to, from != to), n)
  {
  }

  /** The peptide edges of a span inside `[1, n]` are good, because its midpoint lies
      in the span. */
  lemma SpanPeptidesGood(spans: seq<Span>, n: int, i: nat)
    requires i < |spans| && FitsSize(spans) && 1 <= spans[i].start <= spans[i].end <= n
    ensures AllGood(SpanPeptides(spans, n, i), n)
  {
    var sp := spans[i];
    var m := Middle(sp);
    var low := if i == 0 then 1 else sp.start;
    var high := if 0 < i == |spans| - 1 then n else sp.end;
    PeptideGood(m, low, n);
    PeptideGood(m, high, n);
    GoodConcat(Peptide(m, low, m != sp.start), Peptide(m, high, m != high), n);
  }

  /** All peptide edges of spans inside `[1, n]` are good. */
  lemma {:induction false} SpanPeptideListGood(spans: seq<Span>, n: int, hi: nat)
    requires hi <= |spans| && FitsSize(spans) && Within(spans, n)
    ensures AllGood(SpanPeptideList(spans, n, hi), n)
  {
    if hi > 0 {
      SpanPeptideListGood(spans, n, hi - 1);
      SpanPeptideListStep(spans, n, hi);
    }
  }

  /** One more span inside `[1, n]` keeps the peptide list good. */
  lemma SpanPeptideListStep(spans: seq<Span>, n: int, hi: nat)
    requires 0 < hi <= |spans| && FitsSize(spans)
    requires 1 <= spans[hi - 1].start <= spans[hi - 1].end <= n
    requires AllGood(SpanPeptideList(spans, n, hi - 1), n)
    ensures AllGood(SpanPeptideList(spans, n, hi), n)
  {
    SpanPeptidesGood(spans, n, hi - 1);
    GoodConcat(SpanPeptideList(spans, n, hi - 1), SpanPeptides(spans, n, hi - 1), n);
  }

  /** The peptide edges of a gap entry inside `[1, n]` are good. */
  lemma GapPeptidesGood(gap: Span, n: int)
    requires 1 <= gap.start <= gap.end <= n && gap.end < SIZE_LIMIT
    ensures AllGood(GapPeptides(gap), n)
  {
    var m := Middle(gap);
    PeptideGood(m, gap.start, n);
    PeptideGood(m, gap.end, n);
    GoodConcat(Peptide(m, gap.start, m != gap.start), Peptide(m, gap.end, m != gap.end), n);
  }

  /** All peptide edges of gap entries `lo..hi` that lie inside `[1, n]` are good. */
  lemma {:induction false} GapPeptideListGood(gaps: seq<Span>, lo: nat, hi: nat, n: int)
    requires hi <= |gaps| && FitsSize(gaps)
    requires forall j :: lo <= j < hi ==> 1 <= gaps[j].start <= gaps[j].end <= n
    ensures AllGood(GapPeptideList(gaps, lo, hi), n)
    decreases hi
  {
    if lo < hi {
      GapPeptideListGood(gaps, lo, hi - 1, n);
      GapPeptideListStep(gaps, lo, hi, n);
    }
  }

  /** One more gap entry inside `[1, n]` keeps the peptide list good. */
  lemma GapPeptideListStep(gaps: seq<Span>, lo: nat, hi: nat, n: int)
    requires lo < hi <= |gaps| && FitsSize(gaps)
    requires 1 <= gaps[hi - 1].start <= gaps[hi - 1].end <= n
    requires AllGood(GapPeptideList(gaps, lo, hi - 1), n)
    ensures AllGood(GapPeptideList(gaps, lo, hi), n)
  {
    GapPeptidesGood(gaps[hi - 1], n);
    GoodConcat(GapPeptideList(gaps, lo, hi - 1), GapPeptides(gaps[hi - 1]), n);
  }

  /** All jumps from `targets[lo..hi]` at once (`JumpAt` for every index). */
  lemma JumpsAll(root: int, targets: seq<Span>, lo: nat, hi: nat, first: int)
    requires lo <= hi <= |targets| && FitsSize(targets)
    ensures |Jumps(root, targets, lo, hi, first)| == hi - lo
    ensures forall t :: 0 <= t < hi - lo ==>
      Jumps(root, targets, lo, hi, first)[t] == Edge(root, Middle(targets[lo + t]), first + t)
  {
    forall t | 0 <= t < hi - lo
      ensures Jumps(root, targets, lo, hi, first)[t] == Edge(root, Middle(targets[lo + t]), first + t)
    {
      JumpAt(root, targets, lo, hi, first, t);
    }
  }

  /** Indexing into a list made of three parts. */
  lemma ConcatLayout(a: seq<Edge>, b: seq<Edge>, c: seq<Edge>)
    ensures var tree := (a + b) + c;
      && |tree| == |a| + |b| + |c|
      && (forall t :: 0 <= t < |a| ==> tree[t] == a[t])
      && (forall t :: |a| <= t < |a| + |b| ==> tree[t] == b[t - |a|])
      && tree[|a| + |b|..] == c
  {
  }

  /** The number of jumps the builder adds: one per span but the first, one per gap
      entry but the first and the last. */
  function JumpCount(spans: seq<Span>, gaps: seq<Span>): nat
    requires |spans| >= 1
  {
    |spans| - 1 + (if |gaps| >= 2 then |gaps| - 2 else 0)
  }

  /** The head of `tree` holds the jumps: all from the midpoint of the first span,
      numbered 1, 2, ..., `JumpCount` in order, going to the midpoints of the other
      spans and then of the gap entries 2..G-1 (1-based); every later edge is a
      peptide edge. */
  predicate JumpsFirst(tree: seq<Edge>, spans: seq<Span>, gaps: seq<Span>)
    requires |spans| >= 1 && FitsSize(spans) && FitsSize(gaps)
  {
    var root, jumps := Middle(spans[0]), JumpCount(spans, gaps);
    && |tree| >= jumps
    && (forall t :: 0 <= t < |spans| - 1 ==> tree[t] == Edge(root, Middle(spans[t + 1]), t + 1))
    && (forall t :: |spans| - 1 <= t < jumps ==>
          tree[t] == Edge(root, Middle(gaps[t - |spans| + 2]), t + 1))
    && (forall t :: jumps <= t < |tree| ==> tree[t].edgeLabel == PEPTIDE)
  }

  /** No edge joins a residue to itself, and every edge joins two residues of `[1, n]`. */
  predicate EdgesInRange(tree: seq<Edge>, n: int)
  {
    forall t :: 0 <= t < |tree| ==>
      tree[t].start != tree[t].stop && 1 <= tree[t].start <= n && 1 <= tree[t].stop <= n
  }

  /** The edge list in three parts: the span jumps, the gap jumps, the peptide edges. */
  lemma BuildParts(spans: seq<Span>, gaps: seq<Span>, n: int)
    requires |spans| >= 1 && |gaps| >= 1 && FitsSize(spans) && FitsSize(gaps)
    ensures var root, gapEnd := Middle(spans[0]), if |gaps| >= 2 then |gaps| - 1 else 1;
      Build(spans, gaps, n)
      == (Jumps(root, spans, 1, |spans|, 1) + Jumps(root, gaps, 1, gapEnd, |spans|))
         + (SpanPeptideList(spans, n, |spans|) + GapPeptideList(gaps, 1, |gaps| - 1))
  {
    var root := Middle(spans[0]);
    Assoc(Jumps(root, spans, 1, |spans|, 1) + Jumps(root, gaps, 1, |gaps| - 1, |spans|),
          SpanPeptideList(spans, n, |spans|), GapPeptideList(gaps, 1, |gaps| - 1));
  }

  /** The jumps come first, all from the midpoint of the first span and numbered
      1, 2, ... in order: to the midpoints of the other spans, then to the midpoints
      of the gap entries 2..G-1 (1-based). */
  lemma BuildJumps(spans: seq<Span>, gaps: seq<Span>, n: int)
    requires |spans| >= 1 && |gaps| >= 1 && FitsSize(spans) && FitsSize(gaps)
    ensures var tree, root, jumps := Build(spans, gaps, n), Middle(spans[0]), JumpCount(spans, gaps);
      && |tree| >= jumps
      && (forall t :: 0 <= t < |spans| - 1 ==> tree[t] == Edge(root, Middle(spans[t + 1]), t + 1))
      && (forall t :: |spans| - 1 <= t < jumps ==>
            tree[t] == Edge(root, Middle(gaps[t - |spans| + 2]), t + 1))
  {
    var root := Middle(spans[0]);
    var gapEnd := if |gaps| >= 2 then |gaps| - 1 else 1;
    BuildParts(spans, gaps, n);
    var a := Jumps(root, spans, 1, |spans|, 1);
    var b := Jumps(root, gaps, 1, gapEnd, |spans|);
    var c := SpanPeptideList(spans, n, |spans|) + GapPeptideList(gaps, 1, |gaps| - 1);
    LayoutFromParts(Build(spans, gaps, n), a, b, c, root, spans, gaps);
  }

  /** The jump part of a list made of the span jumps, the gap jumps and the rest. */
  lemma LayoutFromParts(tree: seq<Edge>, a: seq<Edge>, b: seq<Edge>, c: seq<Edge>, root: int,
                        spans: seq<Span>, gaps: seq<Span>)
    requires |spans| >= 1 && |gaps| >= 1 && FitsSize(spans) && FitsSize(gaps)
    requires tree == (a + b) + c
    requires a == Jumps(root, spans, 1, |spans|, 1)
    requires b == Jumps(root, gaps, 1, if |gaps| >= 2 then |gaps| - 1 else 1, |spans|)
    ensures |tree| >= JumpCount(spans, gaps)
    ensures forall t :: 0 <= t < |spans| - 1 ==> tree[t] == Edge(root, Middle(spans[t + 1]), t + 1)
    ensures forall t :: |spans| - 1 <= t < JumpCount(spans, gaps) ==>
      tree[t] == Edge(root, Middle(gaps[t - |spans| + 2]), t + 1)
  {
    forall t | 0 <= t < |spans| - 1 ensures tree[t] == Edge(root, Middle(spans[t + 1]), t + 1) {
      JumpAt(root, spans, 1, |spans|, 1, t);
      assert tree[t] == a[t];
    }
    forall t | |spans| - 1 <= t < JumpCount(spans, gaps)
      ensures tree[t] == Edge(root, Middle(gaps[t - |spans| + 2]), t + 1)
    {
      GapJumpAt(tree, a, b, c, root, spans, gaps, t);
    }
  }

  /** Entry `t` of the gap-jump part of such a list. */
  lemma GapJumpAt(tree: seq<Edge>, a: seq<Edge>, b: seq<Edge>, c: seq<Edge>, root: int,
                  spans: seq<Span>, gaps: seq<Span>, t: nat)
    requires |spans| >= 1 && |gaps| >= 3 && FitsSize(spans) && FitsSize(gaps)
    requires tree == (a + b) + c
    requires a == Jumps(root, spans, 1, |spans|, 1)
    requires b == Jumps(root, gaps, 1, |gaps| - 1, |spans|)
    requires |spans| - 1 <= t < |spans| + |gaps| - 3
    ensures t - |spans| + 2 < |gaps| && t < |tree|
    ensures tree[t] == Edge(root, Middle(gaps[t - |spans| + 2]), t + 1)
  {
    JumpAt(root, gaps, 1, |gaps| - 1, |spans|, t - (|spans| - 1));
    assert tree[t] == b[t - |a|];
  }

  /** After the jumps come the peptide edges of every span, then those of the gap
      entries 2..G-1 (1-based). */
  lemma BuildPeptides(spans: seq<Span>, gaps: seq<Span>, n: int)
    requires |spans| >= 1 && |gaps| >= 1 && FitsSize(spans) && FitsSize(gaps)
    ensures var tree, jumps := Build(spans, gaps, n), JumpCount(spans, gaps);
      && |tree| >= jumps
      && tree[jumps..] == SpanPeptideList(spans, n, |spans|) + GapPeptideList(gaps, 1, |gaps| - 1)
  {
    var root := Middle(spans[0]);
    var gapEnd := if |gaps| >= 2 then |gaps| - 1 else 1;
    BuildParts(spans, gaps, n);
    ConcatLayout(Jumps(root, spans, 1, |spans|, 1), Jumps(root, gaps, 1, gapEnd, |spans|),
                 SpanPeptideList(spans, n, |spans|) + GapPeptideList(gaps, 1, |gaps| - 1));
  }

  /** For spans inside `[1, n]` and gap entries 2..G-1 inside `[1, n]`, every peptide
      edge is good. */
  lemma BuildPeptidesGood(spans: seq<Span>, gaps: seq<Span>, n: int)
    requires |spans| >= 1 && |gaps| >= 1 && FitsSize(spans) && FitsSize(gaps) && Within(spans, n)
    requires forall j :: 1 <= j < |gaps| - 1 ==> 1 <= gaps[j].start <= gaps[j].end <= n
    ensures var tree, jumps := Build(spans, gaps, n), JumpCount(spans, gaps);
      |tree| >= jumps && AllGood(tree[jumps..], n)
  {
    BuildPeptides(spans, gaps, n);
    SpanPeptideListGood(spans, n, |spans|);
    GapPeptideListGood(gaps, 1, |gaps| - 1, n);
    GoodConcat(SpanPeptideList(spans, n, |spans|), GapPeptideList(gaps, 1, |gaps| - 1), n);
  }

  /** For spans inside `[1, n]` and gap entries 2..G-1 inside `[1, n]`, the jumps come
      first and every later edge is a peptide edge. */
  lemma BuildJumpsFirst(spans: seq<Span>, gaps: seq<Span>, n: int)
    requires |spans| >= 1 && |gaps| >= 1 && FitsSize(spans) && FitsSize(gaps) && Within(spans, n)
    requires forall j :: 1 <= j < |gaps| - 1 ==> 1 <= gaps[j].start <= gaps[j].end <= n
    ensures JumpsFirst(Build(spans, gaps, n), spans, gaps)
  {
    var tree, jumps := Build(spans, gaps, n), JumpCount(spans, gaps);
    BuildJumps(spans, gaps, n);
    BuildPeptidesGood(spans, gaps, n);
    forall t | jumps <= t < |tree| ensures tree[t].edgeLabel == PEPTIDE {
      assert tree[t] == tree[jumps..][t - jumps];
    }
  }

  /** For ordered spans inside `[1, n]` and gap entries 2..G-1 inside `[1, n]` whose
      midpoints lie outside the first span, no edge joins a residue to itself and every
      edge joins two residues of `[1, n]`. */
  lemma BuildEdgesInRange(spans: seq<Span>, gaps: seq<Span>, n: int)
    requires |spans| >= 1 && |gaps| >= 1 && FitsSize(spans) && FitsSize(gaps)
    requires Within(spans, n) && Ordered(spans)
    requires forall j :: 1 <= j < |gaps| - 1 ==> 1 <= gaps[j].start <= gaps[j].end <= n
    requires forall j :: 1 <= j < |gaps| - 1 ==> !InSpan(spans[0], Middle(gaps[j]))
    ensures EdgesInRange(Build(spans, gaps, n), n)
  {
    var tree := Build(spans, gaps, n);
    var jumps := JumpCount(spans, gaps);
    var root := Middle(spans[0]);
    BuildJumps(spans, gaps, n);
    BuildPeptidesGood(spans, gaps, n);
    assert InSpan(spans[0], root);
    forall t | 0 <= t < |tree|
      ensures tree[t].start != tree[t].stop && 1 <= tree[t].start <= n && 1 <= tree[t].stop <= n
    {
      if t < |spans| - 1 {
        assert spans[0].end < spans[t + 1].start;
        assert InSpan(spans[t + 1], Middle(spans[t + 1]));
      } else if t < jumps {
        assert InSpan(gaps[t - |spans| + 2], Middle(gaps[t - |spans| + 2]));
      } else {
        assert tree[t] == tree[jumps..][t - jumps];
      }
    }
  }

  /** The gap entries 2..G-1 (1-based) of a buildable string lie inside the string and
      their midpoints outside the first span. */
  lemma InteriorGaps(s: string)
    requires Buildable(s)
    ensures var spans := Scan(s);
      && |spans| >= 1 && FitsSize(spans)
      && var gaps := Gaps(spans, |s|);
         && (forall j :: 1 <= j < |gaps| - 1 ==> 1 <= gaps[j].start <= gaps[j].end <= |s|)
         && (forall j :: 1 <= j < |gaps| - 1 ==> !InSpan(spans[0], Middle(gaps[j])))
  {
    BuildableShape(s);
    var spans := Scan(s);
    var n := |s|;
    var gaps := Gaps(spans, n);
    GapsShape(spans, n);
    GapsPartition(spans, n);
    forall j | 1 <= j < |gaps| - 1
      ensures 1 <= gaps[j].start <= gaps[j].end <= n && !InSpan(spans[0], Middle(gaps[j]))
    {
      assert gaps[j] == gaps[..|gaps| - 1][j];
      var m := Middle(gaps[j]);
      assert Covered(gaps, m) by { assert InSpan(gaps[j], m); }
      assert !InSpan(spans[0], m) by {
        if InSpan(spans[0], m) { assert Covered(spans, m); }
      }
    }
  }

  /** The jumps of the fold tree: all from the midpoint of the first span, numbered
      1, 2, ..., (K - 1) + max(G - 2, 0) in order for K spans and G gap entries, going
      to the midpoints of spans 2..K and then of gap entries 2..G-1 (1-based); every
      later edge is a peptide edge. */
  lemma FoldTreeJumps(s: string)
    requires Buildable(s)
    ensures var spans := Scan(s);
      |spans| >= 1 && FitsSize(spans) && JumpsFirst(FoldTree(s), spans, Gaps(spans, |s|))
  {
    BuildableShape(s);
    InteriorGaps(s);
    var spans := Scan(s);
    BuildJumpsFirst(spans, Gaps(spans, |s|), |s|);
  }

  /** No edge of the fold tree joins a residue to itself, and every edge joins two
      residues of the string. */
  lemma FoldTreeEdgesInRange(s: string)
    requires Buildable(s)
    ensures EdgesInRange(FoldTree(s), |s|)
  {
    BuildableShape(s);
    InteriorGaps(s);
    var spans := Scan(s);
    BuildEdgesInRange(spans, Gaps(spans, |s|), |s|);
  }

  /** With a single span the builder adds no jump and only the peptide edges of that
      span: from its midpoint back to residue 1 and forward to the span's end, each
      skipped when the midpoint already is that end. */
  lemma FoldTreeSingleSpan(s: string)
    requires Buildable(s) && |Scan(s)| == 1
    ensures var sp := Scan(s)[0];
      && sp.start <= sp.end <= |s|
      && var m := Middle(sp);
         FoldTree(s) == Peptide(m, 1, m != sp.start) + Peptide(m, sp.end, m != sp.end)
  {
    BuildableShape(s);
    var spans := Scan(s);
    var gaps := Gaps(spans, |s|);
    var root := Middle(spans[0]);
    assert SpanPeptideList(spans, |s|, 1) == SpanPeptides(spans, |s|, 0);
  }
}
