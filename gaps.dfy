/** `identify_gaps_spans`: the stretches of residues between the secondary-structure
    spans, with the trailing stretch after the last span always listed. */
module GapSpans {
  import opened Spans

  /** What the loop of `identify_gaps_spans` pushes from span `k` on, with the running
      `start_position` at `startPosition`: before each span, the gap from the running
      start up to the residue before that span, when that gap is not empty. The
      arithmetic is `core::Size` arithmetic. */
  function GapsFrom(spans: seq<Span>, k: nat, startPosition: Size): (gaps: seq<Span>)
    requires FitsSize(spans) && k <= |spans|
    ensures FitsSize(gaps)
    ensures |gaps| <= |spans| - k
    decreases |spans| - k
  {
    if k == |spans| then []
    else
      var before := Sub(spans[k].start, 1);
      (if startPosition <= before then [Span(startPosition, before)] else [])
      + GapsFrom(spans, k + 1, Add(spans[k].end, 1))
  }

  /** The whole result: the loop's gaps, then the trailing gap from just after the
      last span to `lastResidue`, whenever the last span does not end past it. */
  function Gaps(spans: seq<Span>, lastResidue: Size): (gaps: seq<Span>)
    requires |spans| >= 1 && FitsSize(spans)
    ensures FitsSize(gaps)
    ensures |gaps| <= |spans| + 1
  {
    var last := spans[|spans| - 1];
    GapsFrom(spans, 0, 1)
    + (if last.end <= lastResidue then [Span(Add(last.end, 1), lastResidue)] else [])
  }

  /** `identify_gaps_spans(ss_spans, last_residue)`. The source reads the last span
      unconditionally, so it needs at least one span. */
  method IdentifyGapsSpans(ssSpans: seq<Span>, lastResidue: Size) returns (gapBoundaries: seq<Span>)
    requires |ssSpans| >= 1 && FitsSize(ssSpans)
    ensures gapBoundaries == Gaps(ssSpans, lastResidue)
  {
    gapBoundaries := [];
    var startPosition: Size := 1;
    for ii := 0 to |ssSpans|
      invariant gapBoundaries + GapsFrom(ssSpans, ii, startPosition) == GapsFrom(ssSpans, 0, 1)
    {
      GapsFromStep(ssSpans, ii, startPosition, gapBoundaries);
      if startPosition <= Sub(ssSpans[ii].start, 1) {
        gapBoundaries := gapBoundaries + [Span(startPosition, Sub(ssSpans[ii].start, 1))];
      }
      startPosition := Add(ssSpans[ii].end, 1);
    }
    var last := ssSpans[|ssSpans| - 1];
    if last.end <= lastResidue {
      gapBoundaries := gapBoundaries + [Span(Add(last.end, 1), lastResidue)];
    }
  }

  /** One turn of the gap loop: pushing the gap before span `k`, if any, then going on
      from just after span `k` leaves the final result unchanged. */
  lemma GapsFromStep(spans: seq<Span>, k: nat, sp: Size, pushed: seq<Span>)
    requires FitsSize(spans) && k < |spans|
    ensures var before := Sub(spans[k].start, 1);
      pushed + GapsFrom(spans, k, sp)
      == (if sp <= before then pushed + [Span(sp, before)] else pushed)
         + GapsFrom(spans, k + 1, Add(spans[k].end, 1))
  {
  }

  /** The spans lie in `[1, n]`, are ordered, and `n + 1` still fits in a `core::Size`:
      the shape the scanner produces for a string of `n` residues. */
  predicate WellFormed(spans: seq<Span>, n: int)
  {
    Within(spans, n) && Ordered(spans) && n + 1 < SIZE_LIMIT
  }

  /** The running start of the loop before span `k`: no later than span `k` starts,
      and after every earlier span. */
  predicate RunningStart(spans: seq<Span>, k: nat, sp: int)
    requires k < |spans|
  {
    1 <= sp <= spans[k].start && (k > 0 ==> spans[k - 1].end < sp)
  }

  /** The gaps between the spans from span `k` on, with the running start at `sp`, in
      unbounded integers: before each span, the residues from the running start up to
      the one before that span. */
  function Between(spans: seq<Span>, k: nat, sp: nat): (gaps: seq<Span>)
    requires k <= |spans|
    ensures |gaps| <= |spans| - k
    decreases |spans| - k
  {
    if k == |spans| then []
    else
      (if sp < spans[k].start then [Span(sp, spans[k].start - 1)] else [])
      + Between(spans, k + 1, spans[k].end + 1)
  }

  /** `Between` at span `k` has one entry more than from span `k + 1` on exactly when
      a gap comes before span `k`. */
  lemma BetweenLength(spans: seq<Span>, k: nat, sp: nat)
    requires k < |spans|
    ensures |Between(spans, k, sp)|
      == |Between(spans, k + 1, spans[k].end + 1)| + (if sp < spans[k].start then 1 else 0)
  {
  }

  /** Entry `i` of `Between` at span `k` is the gap before span `k`, or else the entry
      of `Between` from span `k + 1` on, shifted past that gap when there is one. */
  lemma BetweenAt(spans: seq<Span>, k: nat, sp: nat, i: nat)
    requires k < |spans| && i < |Between(spans, k, sp)|
    ensures var shift := if sp < spans[k].start then 1 else 0;
      var rest := Between(spans, k + 1, spans[k].end + 1);
      if i < shift then Between(spans, k, sp)[i] == Span(sp, spans[k].start - 1)
      else k + 1 < |spans| && i - shift < |rest| && Between(spans, k, sp)[i] == rest[i - shift]
  {
  }

  /** On well-formed spans nothing in the gap loop wraps: it computes `Between`. */
  lemma {:induction false} GapsFromIsBetween(spans: seq<Span>, k: nat, sp: Size, n: int)
    requires Within(spans, n) && n + 1 < SIZE_LIMIT && k <= |spans| && 1 <= sp
    ensures FitsSize(spans) && GapsFrom(spans, k, sp) == Between(spans, k, sp)
    decreases |spans| - k
  {
    if k < |spans| {
      var s, e := spans[k].start, spans[k].end;
      assert 1 <= s <= e <= n;
      GapsFromIsBetween(spans, k + 1, e + 1, n);
      calc {
        GapsFrom(spans, k, sp);
        (if sp <= Sub(s, 1) then [Span(sp, Sub(s, 1))] else []) + GapsFrom(spans, k + 1, Add(e, 1));
        { assert Sub(s, 1) == s - 1 && Add(e, 1) == e + 1; }
        (if sp < s then [Span(sp, s - 1)] else []) + GapsFrom(spans, k + 1, e + 1);
        (if sp < s then [Span(sp, s - 1)] else []) + Between(spans, k + 1, e + 1);
        Between(spans, k, sp);
      }
    }
  }

  /** Gap `i` from span `k` on is non-empty and ends just before span `next` starts. */
  lemma {:induction false} BetweenEnd(spans: seq<Span>, k: nat, sp: nat, i: nat)
    returns (next: nat)
    requires k < |spans| && i < |Between(spans, k, sp)|
    ensures var g := Between(spans, k, sp);
      g[i].start <= g[i].end && k <= next < |spans| && g[i].end + 1 == spans[next].start
    decreases |spans| - k
  {
    var g := Between(spans, k, sp);
    var shift := if sp < spans[k].start then 1 else 0;
    if i < shift {
      assert g[i] == Span(sp, spans[k].start - 1) by { BetweenAt(spans, k, sp, i); }
      next := k;
    } else {
      var rest := Between(spans, k + 1, spans[k].end + 1);
      assert k + 1 < |spans| && i - shift < |rest| && g[i] == rest[i - shift] by {
        BetweenAt(spans, k, sp, i);
      }
      next := BetweenEnd(spans, k + 1, spans[k].end + 1, i - shift);
    }
  }

  /** Gap `i` from span `k` on starts at the running start `sp` (`after == k - 1`) or
      just after span `after` ends. */
  lemma {:induction false} BetweenStart(spans: seq<Span>, k: nat, sp: nat, i: nat)
    returns (after: int)
    requires k < |spans| && i < |Between(spans, k, sp)|
    ensures || (after == k - 1 && Between(spans, k, sp)[i].start == sp)
            || (k <= after < |spans| && Between(spans, k, sp)[i].start == spans[after].end + 1)
    decreases |spans| - k
  {
    var g := Between(spans, k, sp);
    var shift := if sp < spans[k].start then 1 else 0;
    if i < shift {
      assert g[i].start == sp by { BetweenAt(spans, k, sp, i); }
      after := k - 1;
    } else {
      var rest := Between(spans, k + 1, spans[k].end + 1);
      assert k + 1 < |spans| && i - shift < |rest| && g[i] == rest[i - shift] by {
        BetweenAt(spans, k, sp, i);
      }
      after := BetweenStart(spans, k + 1, spans[k].end + 1, i - shift);
      assert k <= after < |spans| && g[i].start == spans[after].end + 1;
    }
  }

  /** After span `k`, the running start `end + 1` is a running start for span `k + 1`. */
  lemma NextRunningStart(spans: seq<Span>, k: nat, n: int)
    requires WellFormed(spans, n) && k + 1 < |spans|
    ensures RunningStart(spans, k + 1, spans[k].end + 1)
  {
  }

  /** Every gap from span `k` on starts at the running start `sp` or later. */
  lemma {:induction false} BetweenAfter(spans: seq<Span>, k: nat, sp: nat, n: int)
    requires WellFormed(spans, n) && k <= |spans| && (k < |spans| ==> RunningStart(spans, k, sp))
    ensures forall j :: 0 <= j < |Between(spans, k, sp)| ==> sp <= Between(spans, k, sp)[j].start
    decreases |spans| - k
  {
    if k < |spans| {
      var e := spans[k].end;
      if k + 1 < |spans| {
        NextRunningStart(spans, k, n);
      }
      BetweenAfter(spans, k + 1, e + 1, n);
      forall j | 0 <= j < |Between(spans, k, sp)| ensures sp <= Between(spans, k, sp)[j].start {
        BetweenAt(spans, k, sp, j);
      }
    }
  }

  /** The gaps from span `k` on are ordered. */
  lemma {:induction false} BetweenOrdered(spans: seq<Span>, k: nat, sp: nat, n: int)
    requires WellFormed(spans, n) && k < |spans| && RunningStart(spans, k, sp)
    ensures Ordered(Between(spans, k, sp))
    decreases |spans| - k
  {
    var e := spans[k].end;
    if k + 1 < |spans| {
      NextRunningStart(spans, k, n);
      BetweenOrdered(spans, k + 1, e + 1, n);
    }
    BetweenAfter(spans, k + 1, e + 1, n);
    var g := Between(spans, k, sp);
    forall i, j | 0 <= i < j < |g| ensures g[i].end < g[j].start {
      BetweenAt(spans, k, sp, i);
      BetweenAt(spans, k, sp, j);
    }
  }

  /** Residue `p` from the running start to the end of span `k` is in a gap exactly
      when it comes before span `k`. */
  lemma BetweenPointGap(spans: seq<Span>, k: nat, sp: nat, n: int, p: int)
    requires WellFormed(spans, n) && k < |spans| && RunningStart(spans, k, sp)
    requires sp <= p <= spans[k].end
    ensures Covered(Between(spans, k, sp), p) <==> p < spans[k].start
  {
    var g := Between(spans, k, sp);
    if k + 1 < |spans| {
      NextRunningStart(spans, k, n);
    }
    BetweenAfter(spans, k + 1, spans[k].end + 1, n);
    if Covered(g, p) {
      var i :| 0 <= i < |g| && InSpan(g[i], p);
      BetweenAt(spans, k, sp, i);
    }
    if p < spans[k].start {
      BetweenLength(spans, k, sp);
      BetweenAt(spans, k, sp, 0);
      assert InSpan(g[0], p);
    }
  }

  /** Residue `p` from the running start to the end of span `k` is in a span exactly
      when it is in span `k`. */
  lemma SpanPointHere(spans: seq<Span>, k: nat, sp: nat, n: int, p: int)
    requires WellFormed(spans, n) && k < |spans| && RunningStart(spans, k, sp)
    requires sp <= p <= spans[k].end
    ensures Covered(spans, p) <==> spans[k].start <= p
  {
    if Covered(spans, p) {
      var j :| 0 <= j < |spans| && InSpan(spans[j], p);
    }
    if spans[k].start <= p {
      assert InSpan(spans[k], p);
    }
  }

  /** Past span `k`, residue `p` is in a gap from span `k` on exactly when it is in a
      gap from span `k + 1` on. */
  lemma BetweenPointRest(spans: seq<Span>, k: nat, sp: nat, p: int)
    requires k < |spans| && spans[k].start <= spans[k].end < p
    ensures Covered(Between(spans, k, sp), p)
      <==> Covered(Between(spans, k + 1, spans[k].end + 1), p)
  {
    var g, rest := Between(spans, k, sp), Between(spans, k + 1, spans[k].end + 1);
    var shift := if sp < spans[k].start then 1 else 0;
    if Covered(g, p) {
      var i :| 0 <= i < |g| && InSpan(g[i], p);
      BetweenAt(spans, k, sp, i);
    }
    if Covered(rest, p) {
      var j :| 0 <= j < |rest| && InSpan(rest[j], p);
      BetweenLength(spans, k, sp);
      BetweenAt(spans, k, sp, j + shift);
      assert InSpan(g[j + shift], p);
    }
  }

  /** From the running start `sp` to the end of the last span, residue `p` is in a gap
      exactly when it is in no span. */
  lemma {:induction false} BetweenPoint(spans: seq<Span>, k: nat, sp: nat, n: int, p: int)
    requires WellFormed(spans, n) && k < |spans| && RunningStart(spans, k, sp)
    requires sp <= p <= spans[|spans| - 1].end
    ensures Covered(Between(spans, k, sp), p) <==> !Covered(spans, p)
    decreases |spans| - k
  {
    var e := spans[k].end;
    if p <= e {
      BetweenPointGap(spans, k, sp, n, p);
      SpanPointHere(spans, k, sp, n, p);
    } else {
      BetweenPointRest(spans, k, sp, p);
      assert k < |spans| - 1;
      NextRunningStart(spans, k, n);
      BetweenPoint(spans, k + 1, e + 1, n, p);
      if Covered(spans, p) {
        var j :| 0 <= j < |spans| && InSpan(spans[j], p);
        if j < k { assert spans[j].end < spans[k].start; }
      }
    }
  }

  /** Each span and each gap from span `k` on takes up at least one residue between the
      running start and the end of the last span. */
  lemma {:induction false} BetweenCount(spans: seq<Span>, k: nat, sp: nat, n: int)
    requires WellFormed(spans, n) && k < |spans| && RunningStart(spans, k, sp)
    ensures |Between(spans, k, sp)| + (|spans| - k) <= spans[|spans| - 1].end - sp + 1
    decreases |spans| - k
  {
    BetweenLength(spans, k, sp);
    if k + 1 < |spans| {
      NextRunningStart(spans, k, n);
      BetweenCount(spans, k + 1, spans[k].end + 1, n);
    }
  }

  /** On well-formed spans of a string of `n` residues, `identify_gaps_spans` returns
      the gaps between the spans followed by the trailing gap `(last end + 1, n)`. */
  lemma GapsIsBetween(spans: seq<Span>, n: Size)
    requires |spans| >= 1 && WellFormed(spans, n)
    ensures FitsSize(spans)
    ensures var g, b := Gaps(spans, n), Between(spans, 0, 1);
      && |g| == |b| + 1
      && (forall i :: 0 <= i < |b| ==> g[i] == b[i])
      && g[|b|] == Span(spans[|spans| - 1].end + 1, n)
  {
    var last := spans[|spans| - 1];
    assert last.end <= n;
    GapsFromIsBetween(spans, 0, 1, n);
    GapsUnfold(spans, n);
    assert Add(last.end, 1) == last.end + 1;
    var g, a := Gaps(spans, n), GapsFrom(spans, 0, 1);
    forall i | 0 <= i < |a| ensures g[i] == a[i] { }
  }

  /** When the last span ends by `lastResidue`, the trailing gap is pushed. */
  lemma GapsUnfold(spans: seq<Span>, lastResidue: Size)
    requires |spans| >= 1 && FitsSize(spans) && spans[|spans| - 1].end <= lastResidue
    ensures Gaps(spans, lastResidue)
      == GapsFrom(spans, 0, 1) + [Span(Add(spans[|spans| - 1].end, 1), lastResidue)]
  {
  }

  /** The gap list is never empty; its last entry is always the trailing gap, empty
      (`(n + 1, n)`) when the last span ends at residue `n`; every other entry is a
      non-empty stretch inside `[1, n]`; and the entries are ordered. */
  lemma GapsShape(spans: seq<Span>, n: Size)
    requires |spans| >= 1 && WellFormed(spans, n)
    ensures FitsSize(spans)
    ensures var g := Gaps(spans, n);
      && |g| >= 1
      && g[|g| - 1] == Span(spans[|spans| - 1].end + 1, n)
      && Within(g[..|g| - 1], n)
      && Ordered(g)
  {
    GapsIsBetween(spans, n);
    var last := spans[|spans| - 1];
    var b := Between(spans, 0, 1);
    var g := Gaps(spans, n);
    BetweenAfter(spans, 0, 1, n);
    BetweenOrdered(spans, 0, 1, n);
    forall i | 0 <= i < |b| ensures 1 <= b[i].start <= b[i].end < last.start {
      var next := BetweenEnd(spans, 0, 1, i);
      if next < |spans| - 1 { assert spans[next].start <= spans[next].end < last.start; }
    }
    OrderedAppend(b, Span(last.end + 1, n));
    assert g[..|g| - 1] == b;
  }

  /** There are at most `n + 1` spans and gap entries together: every span and every
      gap but the trailing one holds at least one of the `n` residues. */
  lemma GapsCount(spans: seq<Span>, n: Size)
    requires |spans| >= 1 && WellFormed(spans, n)
    ensures FitsSize(spans)
    ensures |spans| + |Gaps(spans, n)| <= n + 1
  {
    GapsIsBetween(spans, n);
    BetweenCount(spans, 0, 1, n);
  }

  /** The spans and the gaps partition the residues `1..n`: each residue is in a gap
      exactly when it is in no span. */
  lemma GapsPartition(spans: seq<Span>, n: Size)
    requires |spans| >= 1 && WellFormed(spans, n)
    ensures FitsSize(spans)
    ensures forall p :: 1 <= p <= n ==> (Covered(Gaps(spans, n), p) <==> !Covered(spans, p))
  {
    GapsIsBetween(spans, n);
    var last := spans[|spans| - 1];
    var b := Between(spans, 0, 1);
    var t := Span(last.end + 1, n);
    forall p | 1 <= p <= n ensures Covered(Gaps(spans, n), p) <==> !Covered(spans, p) {
      CoveredConcat(b, [t], p);
      assert Covered([t], p) <==> InSpan(t, p) by {
        if InSpan(t, p) { assert [t][0] == t; }
      }
      if p <= last.end {
        BetweenPoint(spans, 0, 1, n, p);
      } else {
        assert InSpan(t, p);
      }
    }
  }

  /** Every gap but the trailing one ends just before some span starts, and every gap
      starts at residue 1 or just after some span ends: no gap could be longer. */
  lemma GapsMaximal(spans: seq<Span>, n: Size)
    requires |spans| >= 1 && WellFormed(spans, n)
    ensures FitsSize(spans)
    ensures var g := Gaps(spans, n);
      && (forall i :: 0 <= i < |g| - 1 ==>
            exists j :: 0 <= j < |spans| && g[i].end + 1 == spans[j].start)
      && (forall i :: 0 <= i < |g| ==>
            g[i].start == 1 || exists j :: 0 <= j < |spans| && g[i].start == spans[j].end + 1)
  {
    GapsIsBetween(spans, n);
    var b := Between(spans, 0, 1);
    var g := Gaps(spans, n);
    forall i | 0 <= i < |g| - 1
      ensures exists j :: 0 <= j < |spans| && g[i].end + 1 == spans[j].start
    {
      assert g[i] == b[i];
      var next := BetweenEnd(spans, 0, 1, i);
    }
    forall i | 0 <= i < |g|
      ensures g[i].start == 1 || exists j :: 0 <= j < |spans| && g[i].start == spans[j].end + 1
    {
      if i < |b| {
        assert g[i] == b[i];
        var after := BetweenStart(spans, 0, 1, i);
      } else {
        assert g[i].start == spans[|spans| - 1].end + 1;
      }
    }
  }

  /** The first gap is the leading gap `(1, first start - 1)` exactly when the first
      span does not start at residue 1; when it does, every gap lies after the first
      span, so the first gap entry is the one between the first two spans. */
  lemma GapsLeading(spans: seq<Span>, n: Size)
    requires |spans| >= 1 && WellFormed(spans, n)
    ensures FitsSize(spans)
    ensures var g := Gaps(spans, n);
      && |g| >= 1
      && (g[0].start == 1 <==> spans[0].start > 1)
      && (spans[0].start > 1 ==> g[0] == Span(1, spans[0].start - 1))
      && (spans[0].start == 1 ==> forall i :: 0 <= i < |g| ==> spans[0].end < g[i].start)
  {
    GapsIsBetween(spans, n);
    var last := spans[|spans| - 1];
    var b := Between(spans, 0, 1);
    var g := Gaps(spans, n);
    if spans[0].start > 1 {
      BetweenLength(spans, 0, 1);
      assert g[0] == b[0];
      assert b[0] == Span(1, spans[0].start - 1) by { BetweenAt(spans, 0, 1, 0); }
    } else {
      if |spans| > 1 {
        NextRunningStart(spans, 0, n);
      }
      BetweenAfter(spans, 1, spans[0].end + 1, n);
      forall i | 0 <= i < |g| ensures spans[0].end < g[i].start {
        if i < |b| {
          assert g[i] == b[i];
          BetweenAt(spans, 0, 1, i);
        } else {
          assert g[i].start == last.end + 1;
        }
      }
    }
  }

  /** A residue is covered by a concatenation when it is covered by either part. */
  lemma CoveredConcat(a: seq<Span>, b: seq<Span>, p: int)
    ensures Covered(a + b, p) <==> Covered(a, p) || Covered(b, p)
  {
    if Covered(a, p) {
      var j :| 0 <= j < |a| && InSpan(a[j], p);
      assert (a + b)[j] == a[j];
    }
    if Covered(b, p) {
      var j :| 0 <= j < |b| && InSpan(b[j], p);
      assert (a + b)[|a| + j] == b[j];
    }
    if Covered(a + b, p) {
      var j :| 0 <= j < |a + b| && InSpan((a + b)[j], p);
      if j < |a| { assert a[j] == (a + b)[j]; } else { assert b[j - |a|] == (a + b)[j]; }
    }
  }
}
