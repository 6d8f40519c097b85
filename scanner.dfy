/** `identify_secondary_structure_spans`: one left-to-right pass over a DSSP string
    that reports each maximal run of one secondary-structure letter ('E' strand or
    'H' helix) as a 1-indexed inclusive span. */
module Scanner {
  import opened Spans

  datatype Option<T> = None | Some(value: T)

  /** The letters that open or continue a secondary-structure element. */
  predicate IsActive(c: char)
  {
    c == 'E' || c == 'H'
  }

  predicate HasActive(s: string)
  {
    exists q :: 0 <= q < |s| && IsActive(s[q])
  }

  /** An open run: the 0-based index where it began and the letter it began with.
      The source keeps only the index (`strand_start`, with -1 for "no open run") and
      reads the letter back from the string. */
  datatype Open = Open(at: nat, letter: char)

  /** What the loop has after some prefix: the closed spans and the open run, if any. */
  datatype ScanState = ScanState(spans: seq<Span>, open: Option<Open>)

  const Start: ScanState := ScanState([], None)

  /** The runs the loop has seen so far: the closed spans and the open run, if any. */
  function RunsSeen(st: ScanState): nat
  {
    |st.spans| + if st.open.Some? then 1 else 0
  }

  /** One iteration of the scanning loop, on character `c` at 0-based index `i`. */
  function Step(st: ScanState, i: nat, c: char): (next: ScanState)
    ensures st.spans <= next.spans
    ensures RunsSeen(next) <= RunsSeen(st) + 1
  {
    if IsActive(c) then
      if st.open.None? then ScanState(st.spans, Some(Open(i, c)))
      else if c != st.open.value.letter then
        ScanState(st.spans + [Span(st.open.value.at + 1, i)], Some(Open(i, c)))
      else st
    else if st.open.Some? then ScanState(st.spans + [Span(st.open.value.at + 1, i)], None)
    else st
  }

  /** Runs the loop over `t`, whose first character sits at index `i` of the string. */
  function Feed(st: ScanState, t: string, i: nat): (last: ScanState)
    ensures st.spans <= last.spans
    ensures RunsSeen(last) <= RunsSeen(st) + |t|
    decreases |t|
  {
    if t == [] then st else Feed(Step(st, i, t[0]), t[1..], i + 1)
  }

  /** After the loop: a run still open at the end closes at the last residue `n`. */
  function Close(st: ScanState, n: nat): (spans: seq<Span>)
    ensures st.spans <= spans
    ensures |spans| == RunsSeen(st)
  {
    match st.open
    case None => st.spans
    case Some(o) => st.spans + [Span(o.at + 1, n)]
  }

  /** The spans the scanner reports for `s`. */
  function Scan(s: string): (spans: seq<Span>)
    ensures |spans| <= |s|
  {
    Close(Feed(Start, s, 0), |s|)
  }

  /** The 0-based sentinel encoding of the open run used by the source. */
  function OpenAt(s: string, strandStart: int): Option<Open>
    requires -1 <= strandStart < |s|
  {
    if strandStart == -1 then None else Some(Open(strandStart, s[strandStart]))
  }

  method IdentifySecondaryStructureSpans(ssString: string) returns (ssBoundaries: seq<Span>)
    ensures ssBoundaries == Scan(ssString)
  {
    ssBoundaries := [];
    var strandStart: int := -1;
    for ii := 0 to |ssString|
      invariant -1 <= strandStart < ii
      invariant ScanState(ssBoundaries, OpenAt(ssString, strandStart)) == Feed(Start, ssString[..ii], 0)
    {
      ghost var before := ScanState(ssBoundaries, OpenAt(ssString, strandStart));
      if IsActive(ssString[ii]) {
        if strandStart == -1 {
          strandStart := ii;
        } else if ssString[ii] != ssString[strandStart] {
          ssBoundaries := ssBoundaries + [Span(strandStart + 1, ii)];
          strandStart := ii;
        }
      } else {
        if strandStart != -1 {
          ssBoundaries := ssBoundaries + [Span(strandStart + 1, ii)];
          strandStart := -1;
        }
      }
      FeedSnoc(Start, ssString[..ii], ssString[ii], 0);
      assert ssString[..ii + 1] == ssString[..ii] + [ssString[ii]];
      assert ScanState(ssBoundaries, OpenAt(ssString, strandStart)) == Step(before, ii, ssString[ii]);
    }
    assert ssString[..|ssString|] == ssString;
    if strandStart != -1 {
      ssBoundaries := ssBoundaries + [Span(strandStart + 1, |ssString|)];
    }
  }

  lemma {:induction false} FeedAppend(st: ScanState, a: string, b: string, i: nat)
    ensures Feed(st, a + b, i) == Feed(Feed(st, a, i), b, i + |a|)
    decreases |a|
  {
    if a == [] {
      assert a + b == b;
    } else {
      assert (a + b)[0] == a[0] && (a + b)[1..] == a[1..] + b;
      FeedAppend(Step(st, i, a[0]), a[1..], b, i + 1);
    }
  }

  lemma FeedSnoc(st: ScanState, t: string, c: char, i: nat)
    ensures Feed(st, t + [c], i) == Step(Feed(st, t, i), i + |t|, c)
  {
    FeedAppend(st, t, [c], i);
    assert [c][1..] == [];
  }

  /** `sp` is one maximal run after residue `lo`: it lies in `(lo, |s|]`, its first
      residue is 'E' or 'H', every residue in it carries that letter, and the residue
      after it (if any) carries a different one. */
  predicate IsRun(s: string, lo: nat, sp: Span)
  {
    lo < sp.start <= sp.end <= |s|
    && IsActive(s[sp.start - 1])
    && (forall q :: sp.start - 1 <= q < sp.end ==> s[q] == s[sp.start - 1])
    && (sp.end < |s| ==> s[sp.end] != s[sp.start - 1])
  }

  /** Every residue in `(lo, hi]` that is 'E' or 'H' lies in some span. */
  predicate CoversActive(s: string, lo: nat, hi: nat, spans: seq<Span>)
    requires hi <= |s|
  {
    forall p {:trigger Covered(spans, p)} :: lo < p <= hi && IsActive(s[p - 1]) ==> Covered(spans, p)
  }

  /** The spans are exactly the maximal runs of one active letter among the residues
      after `lo`: each is a run, they are ordered and disjoint, and every 'E' or 'H'
      after `lo` lies in one of them, so every residue outside all spans is neither. */
  predicate RunsAfter(s: string, lo: nat, spans: seq<Span>)
  {
    (forall j :: 0 <= j < |spans| ==> IsRun(s, lo, spans[j]))
    && Ordered(spans)
    && CoversActive(s, lo, |s|, spans)
  }

  predicate MaximalRuns(s: string, spans: seq<Span>)
  {
    RunsAfter(s, 0, spans)
  }

  /** What the loop knows after the first `k` characters: the closed spans are runs
      that ended before `k`; an open run began with an active letter that every
      character since has repeated; every active letter before the open run (or
      before `k`, when none is open) lies in a closed span. */
  predicate ScanInv(s: string, k: nat, st: ScanState)
    requires k <= |s|
  {
    var sp := st.spans;
    (forall j :: 0 <= j < |sp| ==> IsRun(s, 0, sp[j]) && sp[j].end < k)
    && Ordered(sp)
    && match st.open
       case None => CoversActive(s, 0, k, sp)
       case Some(o) =>
         o.at < k && o.letter == s[o.at] && IsActive(o.letter)
         && (forall q :: o.at <= q < k ==> s[q] == o.letter)
         && (forall j :: 0 <= j < |sp| ==> sp[j].end <= o.at)
         && CoversActive(s, 0, o.at, sp)
  }

  /** Closing the open run at residue `e` (when the character at 0-based `e` differs,
      or `e` is the end) appends a run, and the closed spans stay ordered, with every
      active letter up to `e` covered. */
  lemma CloseRun(s: string, k: nat, st: ScanState, e: nat)
    requires k <= |s| && ScanInv(s, k, st) && st.open.Some?
    requires e == k
    requires e < |s| ==> s[e] != st.open.value.letter
    ensures var sp' := st.spans + [Span(st.open.value.at + 1, e)];
      (forall j :: 0 <= j < |sp'| ==> IsRun(s, 0, sp'[j]) && sp'[j].end <= e)
      && Ordered(sp') && CoversActive(s, 0, e, sp')
  {
    var sp, o := st.spans, st.open.value;
    var x := Span(o.at + 1, e);
    assert IsRun(s, 0, x);
    OrderedAppend(sp, x);
    CoveredExtend(sp, x);
    var sp' := sp + [x];
    forall j | 0 <= j < |sp'| ensures IsRun(s, 0, sp'[j]) && sp'[j].end <= e {
      if j < |sp| { assert sp'[j] == sp[j]; }
    }
    forall p | 0 < p <= e && IsActive(s[p - 1]) ensures Covered(sp', p) {
      if p <= o.at { assert Covered(sp, p); } else { assert InSpan(x, p); }
    }
  }

  lemma CoversActiveExtend(s: string, lo: nat, hi: nat, sp: seq<Span>)
    requires hi < |s| && CoversActive(s, lo, hi, sp) && !IsActive(s[hi])
    ensures CoversActive(s, lo, hi + 1, sp)
  {
    forall p | lo < p <= hi + 1 && IsActive(s[p - 1]) ensures Covered(sp, p) {
      assert p <= hi;
    }
  }

  /** An 'E' or 'H' with no open run opens one. */
  lemma StepOpens(s: string, k: nat, sp: seq<Span>)
    requires k < |s| && IsActive(s[k]) && ScanInv(s, k, ScanState(sp, None))
    ensures ScanInv(s, k + 1, ScanState(sp, Some(Open(k, s[k]))))
  {
  }

  /** Another character with no open run changes nothing. */
  lemma StepIdles(s: string, k: nat, sp: seq<Span>)
    requires k < |s| && !IsActive(s[k]) && ScanInv(s, k, ScanState(sp, None))
    ensures ScanInv(s, k + 1, ScanState(sp, None))
  {
    CoversActiveExtend(s, 0, k, sp);
  }

  /** The open run's own letter extends it. */
  lemma StepExtends(s: string, k: nat, sp: seq<Span>, o: Open)
    requires k < |s| && s[k] == o.letter && ScanInv(s, k, ScanState(sp, Some(o)))
    ensures ScanInv(s, k + 1, ScanState(sp, Some(o)))
  {
  }

  /** Any other character closes the open run; the other active letter opens the next. */
  lemma StepCloses(s: string, k: nat, sp: seq<Span>, o: Open)
    requires k < |s| && s[k] != o.letter && ScanInv(s, k, ScanState(sp, Some(o)))
    ensures var sp' := sp + [Span(o.at + 1, k)];
      if IsActive(s[k]) then ScanInv(s, k + 1, ScanState(sp', Some(Open(k, s[k]))))
      else ScanInv(s, k + 1, ScanState(sp', None))
  {
    CloseRun(s, k, ScanState(sp, Some(o)), k);
    if !IsActive(s[k]) {
      CoversActiveExtend(s, 0, k, sp + [Span(o.at + 1, k)]);
    }
  }

  lemma StepKeepsInv(s: string, k: nat, st: ScanState)
    requires k < |s| && ScanInv(s, k, st)
    ensures ScanInv(s, k + 1, Step(st, k, s[k]))
  {
    match st.open {
      case None =>
        if IsActive(s[k]) { StepOpens(s, k, st.spans); } else { StepIdles(s, k, st.spans); }
      case Some(o) =>
        if s[k] == o.letter { StepExtends(s, k, st.spans, o); } else { StepCloses(s, k, st.spans, o); }
    }
  }

  lemma {:induction false} FeedPrefixInv(s: string, k: nat)
    requires k <= |s|
    ensures ScanInv(s, k, Feed(Start, s[..k], 0))
  {
    if k == 0 {
      assert s[..0] == [];
    } else {
      FeedPrefixInv(s, k - 1);
      FeedSnoc(Start, s[..k - 1], s[k - 1], 0);
      assert s[..k] == s[..k - 1] + [s[k - 1]];
      StepKeepsInv(s, k - 1, Feed(Start, s[..k - 1], 0));
    }
  }

  /** The scanner reports exactly the maximal runs of 'E' or 'H' in the string. */
  lemma ScanIsMaximalRuns(s: string)
    ensures MaximalRuns(s, Scan(s))
  {
    FeedPrefixInv(s, |s|);
    assert s[..|s|] == s;
    var st := Feed(Start, s, 0);
    if st.open.Some? {
      CloseRun(s, |s|, st, |s|);
    }
  }

  lemma RunsAfterTail(s: string, lo: nat, a: seq<Span>)
    requires RunsAfter(s, lo, a) && a != []
    ensures RunsAfter(s, a[0].end, a[1..])
  {
    var t := a[1..];
    forall j | 0 <= j < |t| ensures IsRun(s, a[0].end, t[j]) {
      assert t[j] == a[j + 1] && a[0].end < a[j + 1].start;
    }
    forall i, j | 0 <= i < j < |t| ensures t[i].end < t[j].start {
      assert t[i] == a[i + 1] && t[j] == a[j + 1];
    }
    forall p | a[0].end < p <= |s| && IsActive(s[p - 1]) ensures Covered(t, p) {
      assert Covered(a, p);
      var j :| 0 <= j < |a| && InSpan(a[j], p);
      assert t[j - 1] == a[j];
    }
  }

  /** The first span after `lo` is determined: it starts at the first 'E' or 'H' after
      `lo` and runs as long as that letter repeats. */
  lemma RunsAfterHead(s: string, lo: nat, a: seq<Span>, b: seq<Span>)
    requires RunsAfter(s, lo, a) && RunsAfter(s, lo, b) && a != [] && b != []
    ensures a[0] == b[0]
  {
    var x, y := a[0], b[0];
    assert IsRun(s, lo, x) && IsRun(s, lo, y);
    assert Covered(b, x.start) && Covered(a, y.start);
    var jb :| 0 <= jb < |b| && InSpan(b[jb], x.start);
    var ja :| 0 <= ja < |a| && InSpan(a[ja], y.start);
    assert x.start == y.start;
  }

  /** The runs after `lo` are none exactly when no 'E' or 'H' follows `lo`. */
  lemma RunsAfterEmpty(s: string, lo: nat, a: seq<Span>)
    requires RunsAfter(s, lo, a)
    ensures a == [] <==> forall q :: lo <= q < |s| ==> !IsActive(s[q])
  {
    if a != [] {
      assert IsRun(s, lo, a[0]);
    } else {
      forall q | lo <= q < |s| ensures !IsActive(s[q]) {
        assert !Covered(a, q + 1);
      }
    }
  }

  lemma RunsAfterEitherEmpty(s: string, lo: nat, a: seq<Span>, b: seq<Span>)
    requires RunsAfter(s, lo, a) && RunsAfter(s, lo, b) && (a == [] || b == [])
    ensures a == b
  {
    RunsAfterEmpty(s, lo, a);
    RunsAfterEmpty(s, lo, b);
  }

  /** At most one span list is the maximal runs after `lo`. */
  lemma {:induction false} RunsAfterUnique(s: string, lo: nat, a: seq<Span>, b: seq<Span>)
    requires RunsAfter(s, lo, a) && RunsAfter(s, lo, b)
    ensures a == b
    decreases |a|
  {
    if a == [] || b == [] {
      RunsAfterEitherEmpty(s, lo, a, b);
    } else {
      RunsAfterHead(s, lo, a, b);
      RunsAfterTail(s, lo, a);
      RunsAfterTail(s, lo, b);
      RunsAfterUnique(s, a[0].end, a[1..], b[1..]);
      assert a == [a[0]] + a[1..] && b == [b[0]] + b[1..];
    }
  }

  /** A span list is what the scanner reports if and only if it is the list of maximal
      runs of 'E' or 'H'. */
  lemma ScanCharacterized(s: string, spans: seq<Span>)
    ensures spans == Scan(s) <==> MaximalRuns(s, spans)
  {
    ScanIsMaximalRuns(s);
    if MaximalRuns(s, spans) {
      RunsAfterUnique(s, 0, spans, Scan(s));
    }
  }

  /** Spans lie in `[1, |s|]`, are non-empty, ordered and disjoint. */
  lemma ScanShape(s: string)
    ensures Within(Scan(s), |s|) && Ordered(Scan(s))
    ensures |s| < SIZE_LIMIT ==> FitsSize(Scan(s))
  {
    ScanIsMaximalRuns(s);
  }

  /** The scanner finds no span exactly when no residue is 'E' or 'H'. */
  lemma ScanEmptyIff(s: string)
    ensures Scan(s) == [] <==> !HasActive(s)
  {
    ScanIsMaximalRuns(s);
    var sp := Scan(s);
    if HasActive(s) {
      var q :| 0 <= q < |s| && IsActive(s[q]);
      assert Covered(sp, q + 1);
    }
    if sp != [] {
      assert IsActive(s[sp[0].start - 1]);
    }
  }

  /** In maximal runs, a run followed by an 'E' or 'H' (necessarily the other letter)
      is followed at once by the next run. */
  lemma RunsSplit(s: string, sp: seq<Span>, k: nat)
    requires MaximalRuns(s, sp) && k < |sp|
    requires sp[k].end < |s| && IsActive(s[sp[k].end])
    ensures k + 1 < |sp| && sp[k + 1].start == sp[k].end + 1
  {
    var e := sp[k].end;
    assert CoversActive(s, 0, |s|, sp);
    assert Covered(sp, e + 1);
    var j :| 0 <= j < |sp| && InSpan(sp[j], e + 1);
    assert IsRun(s, 0, sp[j]);
    assert j > k;
    assert IsRun(s, 0, sp[k + 1]);
    assert sp[k].end < sp[k + 1].start;
    assert j == k + 1;
  }

  /** A span closed by the other active letter is followed at once by a span that
      starts on the next residue. */
  lemma ScanSplitsOnLetterChange(s: string, k: nat)
    requires k < |Scan(s)|
    requires Scan(s)[k].end < |s| && IsActive(s[Scan(s)[k].end])
    ensures k + 1 < |Scan(s)| && Scan(s)[k + 1].start == Scan(s)[k].end + 1
  {
    ScanIsMaximalRuns(s);
    RunsSplit(s, Scan(s), k);
  }
}
