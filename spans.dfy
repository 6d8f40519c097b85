/** Residue positions, 1-indexed inclusive spans, and the unsigned `core::Size`
    arithmetic the fold-tree code does on them. */
module Spans {

  /** `core::Size` is an unsigned 64-bit integer: arithmetic on it wraps modulo 2^64. */
  const SIZE_LIMIT: int := 0x1_0000_0000_0000_0000

  type Size = x: int | 0 <= x < SIZE_LIMIT

  /** Unsigned subtraction `a - b`: subtraction modulo 2^64, which is the plain
      difference when `a >= b`. */
  function Sub(a: Size, b: Size): (r: Size)
    ensures r == (a - b) % SIZE_LIMIT
    ensures a >= b ==> r == a - b
  {
    if a >= b then a - b else a - b + SIZE_LIMIT
  }

  /** Unsigned addition `a + b`: addition modulo 2^64, which is the plain sum
      below 2^64. */
  function Add(a: Size, b: Size): (r: Size)
    ensures r == (a + b) % SIZE_LIMIT
    ensures a + b < SIZE_LIMIT ==> r == a + b
  {
    if a + b < SIZE_LIMIT then a + b else a + b - SIZE_LIMIT
  }

  /** A `std::pair<Size, Size>` read as the residues `start..end`, both included.
      A pair with `start > end` covers no residue. */
  datatype Span = Span(start: nat, end: nat)

  /** Every number in the spans fits in a `core::Size`. */
  predicate FitsSize(spans: seq<Span>)
  {
    forall j :: 0 <= j < |spans| ==> spans[j].start < SIZE_LIMIT && spans[j].end < SIZE_LIMIT
  }

  predicate InSpan(sp: Span, p: int)
  {
    sp.start <= p <= sp.end
  }

  /** Residue `p` lies inside one of the spans. */
  predicate Covered(spans: seq<Span>, p: int)
  {
    exists j :: 0 <= j < |spans| && InSpan(spans[j], p)
  }

  /** Appending a span keeps every residue the list covered and adds the span's own. */
  lemma CoveredExtend(spans: seq<Span>, x: Span)
    ensures forall p :: Covered(spans, p) ==> Covered(spans + [x], p)
    ensures forall p :: InSpan(x, p) ==> Covered(spans + [x], p)
  {
    forall p | Covered(spans, p) ensures Covered(spans + [x], p) {
      var j :| 0 <= j < |spans| && InSpan(spans[j], p);
      assert (spans + [x])[j] == spans[j];
    }
    forall p | InSpan(x, p) ensures Covered(spans + [x], p) {
      assert (spans + [x])[|spans|] == x;
    }
  }

  /** Each span lies in `[1, n]` and is non-empty. */
  predicate Within(spans: seq<Span>, n: int)
  {
    forall j :: 0 <= j < |spans| ==> 1 <= spans[j].start <= spans[j].end <= n
  }

  /** Every span ends before each later span starts: with non-empty spans this
      makes the list strictly increasing and pairwise disjoint. */
  predicate Ordered(spans: seq<Span>)
  {
    forall i, j :: 0 <= i < j < |spans| ==> spans[i].end < spans[j].start
  }

  /** A span that starts after every span of an ordered list keeps it ordered. */
  lemma OrderedAppend(spans: seq<Span>, x: Span)
    requires Ordered(spans)
    requires forall j :: 0 <= j < |spans| ==> spans[j].end < x.start
    ensures Ordered(spans + [x])
  {
    var t := spans + [x];
    forall i, j | 0 <= i < j < |t| ensures t[i].end < t[j].start {
      assert t[i] == spans[i];
      if j < |spans| { assert t[j] == spans[j]; } else { assert t[j] == x; }
    }
  }

  /** `find_middle_ss`: `(end - beginning) / 2 + beginning` in `core::Size`.
      For `beginning <= end` nothing wraps and the result is the lower middle
      residue: as far from `beginning` as from `end`, or one nearer `beginning`. */
  function FindMiddle(beginning: Size, end: Size): (middle: Size)
    ensures beginning <= end ==> beginning <= middle <= end
    ensures beginning <= end ==> 0 <= (end - middle) - (middle - beginning) <= 1
    ensures beginning <= end && end - beginning <= 1 ==> middle == beginning
  {
    Add(Sub(end, beginning) / 2, beginning)
  }

  /** The midpoint of a span, as the builder computes it for spans and gaps. */
  function Middle(sp: Span): (m: Size)
    requires sp.start < SIZE_LIMIT && sp.end < SIZE_LIMIT
    ensures sp.start <= sp.end ==> InSpan(sp, m)
  {
    FindMiddle(sp.start, sp.end)
  }

  /** The builder writes the midpoint inline as `first + ((second - first) / 2)`;
      in `core::Size` that is the same value as `find_middle_ss`, for every input. */
  lemma InlineMiddleIsFindMiddle(first: Size, second: Size)
    ensures Add(first, Sub(second, first) / 2) == FindMiddle(first, second)
  {
  }

  /** For `beginning > end` the subtraction wraps, and the result is no longer inside
      the pair: concretely `find_middle_ss(5, 3)` is `2^63 + 4`. */
  lemma FindMiddleWrapsOnReversedPair()
    ensures FindMiddle(5, 3) == SIZE_LIMIT / 2 + 4
  {
  }
}
