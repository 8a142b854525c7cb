/**
 * Task intervals of a workflow trace and the sweep that coalesces them into
 * contiguous busy spans (calculate_interval_durations in tempo/calc_time.py).
 *
 * SweepOver is the sweep loop as a function; the spans it reports are the
 * ones it closes during the loop. IsCoalescing is an independent description
 * of the maximal busy spans of a set of intervals, and the main results are
 * that the sweep builds exactly those spans (SweepCoalesces), that they are
 * unique (CoalescingUnique), and so that what the source reports is every
 * maximal span except the last (SweepDropsOnlyLastSpan).
 */
module Intervals {

  /** A point in time, in microseconds from 1970-01-01 00:00:00. */
  type Time = int

  /** The (submit, complete) pair of one task record. */
  datatype Interval = Interval(submit: Time, complete: Time)

  /** datetime(1969, 12, 1, 23, 59, 59): thirty days and one second before the epoch. */
  const Sentinel: Time := -(30 * 86400 + 1) * 1000000

  predicate Valid(iv: Interval) { iv.submit <= iv.complete }

  /** The timedelta `complete - submit`. */
  function Length(iv: Interval): int { iv.complete - iv.submit }

  predicate Within(iv: Interval, span: Interval) {
    span.submit <= iv.submit && iv.complete <= span.complete
  }

  // ---------------------------------------------------------------------------
  // Orderings of an interval set

  predicate SortedByStart(s: seq<Interval>) {
    forall i, j :: 0 <= i < j < |s| ==> s[i].submit <= s[j].submit
  }

  predicate Distinct(s: seq<Interval>) {
    forall i, j :: 0 <= i < j < |s| ==> s[i] != s[j]
  }

  function Elems(s: seq<Interval>): set<Interval> { set x | x in s }

  /** `order` lists every interval of `intervals` once, by ascending start. */
  predicate IsStartOrder(order: seq<Interval>, intervals: set<Interval>) {
    SortedByStart(order) && Distinct(order) && Elems(order) == intervals
  }

  predicate WellFormed(intervals: set<Interval>) {
    forall iv :: iv in intervals ==> Valid(iv)
  }

  /** Every interval is well formed and starts after the sweep's sentinel. */
  predicate Regular(intervals: set<Interval>) {
    forall iv :: iv in intervals ==> Valid(iv) && Sentinel < iv.submit
  }

  // ---------------------------------------------------------------------------
  // The sweep

  /** The sweep's state: the spans closed so far and the span still open. */
  datatype Sweep = Sweep(merged: seq<Interval>, current: Interval)

  /** Both ends of the open span start at the sentinel. */
  const Initial: Sweep := Sweep([], Interval(Sentinel, Sentinel))

  /** One iteration of the loop over the sorted intervals; `first` is `i == 0`. */
  function Step(st: Sweep, iv: Interval, first: bool): Sweep {
    if iv.submit > st.current.complete then
      Sweep(if first then st.merged else st.merged + [st.current], iv)
    else if iv.complete >= st.current.complete then
      Sweep(st.merged, Interval(st.current.submit, iv.complete))
    else
      st
  }

  /** The state after the loop has run over `s`; the source reports `.merged`. */
  function SweepOver(s: seq<Interval>): Sweep {
    if s == [] then Initial
    else Step(SweepOver(s[..|s| - 1]), s[|s| - 1], |s| == 1)
  }

  /** Every span the sweep builds, the one still open at the end included. */
  function Spans(s: seq<Interval>): seq<Interval> {
    if s == [] then [] else SweepOver(s).merged + [SweepOver(s).current]
  }

  function Durations(spans: seq<Interval>): seq<int> {
    seq(|spans|, k requires 0 <= k < |spans| => Length(spans[k]))
  }

  /** `sum(durations, timedelta())`. */
  function Sum(xs: seq<int>): int {
    if xs == [] then 0 else Sum(xs[..|xs| - 1]) + xs[|xs| - 1]
  }

  /** The naive busy time: every interval's own length, added up. */
  function TotalLength(s: seq<Interval>): int {
    if s == [] then 0 else TotalLength(s[..|s| - 1]) + Length(s[|s| - 1])
  }

  function DropLast(c: seq<Interval>): seq<Interval> {
    if c == [] then [] else c[..|c| - 1]
  }

  // ---------------------------------------------------------------------------
  // The maximal busy spans of a set of intervals, described without the sweep

  predicate AllValid(c: seq<Interval>) {
    forall k :: 0 <= k < |c| ==> Valid(c[k])
  }

  /** Each span ends strictly before any later one starts. */
  predicate Gapped(c: seq<Interval>) {
    forall i, j :: 0 <= i < j < |c| ==> c[i].complete < c[j].submit
  }

  ghost predicate StartsAt(intervals: set<Interval>, t: Time) {
    exists iv :: iv in intervals && iv.submit == t
  }

  ghost predicate EndsAt(intervals: set<Interval>, t: Time) {
    exists iv :: iv in intervals && iv.complete == t
  }

  /** Some interval is busy during the microsecond that starts at `t`. */
  ghost predicate CoveredAt(intervals: set<Interval>, t: Time) {
    exists iv :: iv in intervals && iv.submit <= t < iv.complete
  }

  /** The span has no idle microsecond. */
  ghost predicate Connected(intervals: set<Interval>, span: Interval) {
    forall t :: span.submit <= t < span.complete ==> CoveredAt(intervals, t)
  }

  ghost predicate InSomeSpan(iv: Interval, c: seq<Interval>) {
    exists k :: 0 <= k < |c| && Within(iv, c[k])
  }

  /** A span is built from the intervals: it starts where one starts, ends where one ends, has no idle time. */
  ghost predicate BuiltFrom(intervals: set<Interval>, span: Interval) {
    StartsAt(intervals, span.submit) && EndsAt(intervals, span.complete) && Connected(intervals, span)
  }

  /**
   * `c` is the list of maximal busy spans of `intervals`: separated by idle
   * gaps, covering every interval, each built from intervals only.
   */
  ghost predicate IsCoalescing(intervals: set<Interval>, c: seq<Interval>) {
    AllValid(c) && Gapped(c) && Covers(intervals, c) && AllBuiltFrom(intervals, c)
  }

  /** Every interval lies inside some span. */
  ghost predicate Covers(intervals: set<Interval>, c: seq<Interval>) {
    forall iv {:trigger InSomeSpan(iv, c)} :: iv in intervals ==> InSomeSpan(iv, c)
  }

  ghost predicate AllBuiltFrom(intervals: set<Interval>, c: seq<Interval>) {
    forall k {:trigger BuiltFrom(intervals, c[k])} :: 0 <= k < |c| ==> BuiltFrom(intervals, c[k])
  }

  // ---------------------------------------------------------------------------
  // Facts about coalescings

  lemma BuiltFromWidens(intervals: set<Interval>, more: set<Interval>, span: Interval)
    requires intervals <= more && BuiltFrom(intervals, span)
    ensures BuiltFrom(more, span)
  {
    var a :| a in intervals && a.submit == span.submit;
    assert a in more;
    var b :| b in intervals && b.complete == span.complete;
    assert b in more;
    forall t | span.submit <= t < span.complete
      ensures CoveredAt(more, t)
    {
      assert CoveredAt(intervals, t);
      var w :| w in intervals && w.submit <= t < w.complete;
      assert w in more;
    }
  }

  /** There is no span exactly when there is no interval. */
  lemma CoalescingEmpty(intervals: set<Interval>, c: seq<Interval>)
    requires IsCoalescing(intervals, c)
    ensures c == [] <==> intervals == {}
  {
    if c != [] {
      assert BuiltFrom(intervals, c[0]);
      var w :| w in intervals && w.submit == c[0].submit;
    }
    if intervals != {} {
      var iv :| iv in intervals;
      assert InSomeSpan(iv, c);
    }
  }

  lemma AppendCovers(intervals: set<Interval>, c: seq<Interval>, x: Interval)
    requires Covers(intervals, c)
    ensures Covers(intervals + {x}, c + [x])
  {
    var d := c + [x];
    forall iv | iv in intervals + {x}
      ensures InSomeSpan(iv, d)
    {
      if iv == x {
        assert Within(x, d[|c|]);
      } else {
        assert InSomeSpan(iv, c);
        var k :| 0 <= k < |c| && Within(iv, c[k]);
        assert d[k] == c[k];
      }
    }
  }

  lemma AppendBuilt(intervals: set<Interval>, c: seq<Interval>, x: Interval)
    requires AllBuiltFrom(intervals, c) && Valid(x)
    ensures AllBuiltFrom(intervals + {x}, c + [x])
  {
    var s, d := intervals + {x}, c + [x];
    forall k | 0 <= k < |d|
      ensures BuiltFrom(s, d[k])
    {
      if k == |c| {
        assert d[k] == x && x in s;
        forall t | x.submit <= t < x.complete
          ensures CoveredAt(s, t)
        {
          assert x in s;
        }
      } else {
        assert d[k] == c[k];
        BuiltFromWidens(intervals, s, c[k]);
      }
    }
  }

  lemma AppendGapped(c: seq<Interval>, x: Interval)
    requires AllValid(c) && Gapped(c)
    requires c != [] ==> c[|c| - 1].complete < x.submit
    ensures Gapped(c + [x])
  {
    var d := c + [x];
    forall i, j | 0 <= i < j < |d|
      ensures d[i].complete < d[j].submit
    {
      if j < |c| {
        assert d[i] == c[i] && d[j] == c[j];
      } else if i < |c| - 1 {
        assert Valid(c[|c| - 1]);
        assert c[i].complete < c[|c| - 1].submit;
      }
    }
  }

  /** A span opened after every span so far, with a gap, extends a coalescing. */
  lemma AppendSpan(intervals: set<Interval>, c: seq<Interval>, x: Interval)
    requires IsCoalescing(intervals, c) && Valid(x)
    requires c != [] ==> c[|c| - 1].complete < x.submit
    ensures IsCoalescing(intervals + {x}, c + [x])
  {
    AppendCovers(intervals, c, x);
    AppendBuilt(intervals, c, x);
    AppendGapped(c, x);
    assert AllValid(c + [x]) by {
      assert forall k :: 0 <= k < |c| ==> (c + [x])[k] == c[k];
    }
  }

  /** The last span, stretched to the end of `x` when `x` ends later. */
  function Stretched(last: Interval, x: Interval): Interval {
    if x.complete >= last.complete then Interval(last.submit, x.complete) else last
  }

  lemma ExtendCovers(intervals: set<Interval>, c: seq<Interval>, x: Interval)
    requires Covers(intervals, c) && c != []
    requires c[|c| - 1].submit <= x.submit
    ensures Covers(intervals + {x}, c[..|c| - 1] + [Stretched(c[|c| - 1], x)])
  {
    var n := |c| - 1;
    var d := c[..n] + [Stretched(c[n], x)];
    assert |d| == |c|;
    forall iv | iv in intervals + {x}
      ensures InSomeSpan(iv, d)
    {
      if iv == x {
        assert Within(x, d[n]);
      } else {
        assert InSomeSpan(iv, c);
        var k :| 0 <= k < |c| && Within(iv, c[k]);
        assert Within(iv, d[k]);
      }
    }
  }

  lemma StretchedBuilt(intervals: set<Interval>, last: Interval, x: Interval)
    requires BuiltFrom(intervals, last) && Valid(x)
    requires last.submit <= x.submit <= last.complete
    ensures BuiltFrom(intervals + {x}, Stretched(last, x))
  {
    var s, g := intervals + {x}, Stretched(last, x);
    var a :| a in intervals && a.submit == last.submit;
    assert a in s;
    if x.complete >= last.complete {
      assert x in s;
    } else {
      var b :| b in intervals && b.complete == last.complete;
      assert b in s;
    }
    forall t | g.submit <= t < g.complete
      ensures CoveredAt(s, t)
    {
      if t < last.complete {
        assert CoveredAt(intervals, t);
        var w :| w in intervals && w.submit <= t < w.complete;
        assert w in s;
      } else {
        assert x in s && x.submit <= t < x.complete;
      }
    }
  }

  lemma ExtendBuilt(intervals: set<Interval>, c: seq<Interval>, x: Interval)
    requires AllBuiltFrom(intervals, c) && Valid(x) && c != []
    requires c[|c| - 1].submit <= x.submit <= c[|c| - 1].complete
    ensures AllBuiltFrom(intervals + {x}, c[..|c| - 1] + [Stretched(c[|c| - 1], x)])
  {
    var n := |c| - 1;
    var s, d := intervals + {x}, c[..n] + [Stretched(c[n], x)];
    forall k | 0 <= k < |d|
      ensures BuiltFrom(s, d[k])
    {
      if k < n {
        assert d[k] == c[k];
        BuiltFromWidens(intervals, s, c[k]);
      } else {
        assert BuiltFrom(intervals, c[n]);
        StretchedBuilt(intervals, c[n], x);
      }
    }
  }

  lemma ExtendGapped(c: seq<Interval>, x: Interval)
    requires AllValid(c) && Gapped(c) && Valid(x) && c != []
    requires c[|c| - 1].submit <= x.submit
    ensures var d := c[..|c| - 1] + [Stretched(c[|c| - 1], x)];
            AllValid(d) && Gapped(d)
  {
    var n := |c| - 1;
    var d := c[..n] + [Stretched(c[n], x)];
    assert forall k :: 0 <= k < n ==> d[k] == c[k];
    assert Valid(c[n]);
    forall i, j | 0 <= i < j < |d|
      ensures d[i].complete < d[j].submit
    {
      assert d[i] == c[i];
      if j < n {
        assert d[j] == c[j];
      } else {
        assert c[i].complete < c[n].submit;
      }
    }
  }

  /** An interval that starts inside the last span stretches it to its own end. */
  lemma ExtendLastSpan(intervals: set<Interval>, c: seq<Interval>, x: Interval)
    requires IsCoalescing(intervals, c) && Valid(x) && c != []
    requires c[|c| - 1].submit <= x.submit <= c[|c| - 1].complete
    ensures IsCoalescing(intervals + {x}, c[..|c| - 1] + [Stretched(c[|c| - 1], x)])
  {
    ExtendCovers(intervals, c, x);
    ExtendBuilt(intervals, c, x);
    ExtendGapped(c, x);
  }

  lemma FirstSpanStartsEarliest(intervals: set<Interval>, c: seq<Interval>, iv: Interval)
    requires IsCoalescing(intervals, c) && iv in intervals
    ensures c != [] && c[0].submit <= iv.submit
  {
    assert InSomeSpan(iv, c);
    var k :| 0 <= k < |c| && Within(iv, c[k]);
    assert Valid(c[0]);
  }

  lemma FirstSpansStartTogether(intervals: set<Interval>, a: seq<Interval>, b: seq<Interval>)
    requires IsCoalescing(intervals, a) && IsCoalescing(intervals, b) && a != [] && b != []
    ensures a[0].submit == b[0].submit
  {
    assert BuiltFrom(intervals, a[0]) && BuiltFrom(intervals, b[0]);
    var wa :| wa in intervals && wa.submit == a[0].submit;
    var wb :| wb in intervals && wb.submit == b[0].submit;
    FirstSpanStartsEarliest(intervals, a, wb);
    FirstSpanStartsEarliest(intervals, b, wa);
  }

  /** No interval is busy during the microsecond at which a span ends. */
  lemma IdleAtSpanEnd(intervals: set<Interval>, c: seq<Interval>, k: int)
    requires IsCoalescing(intervals, c) && 0 <= k < |c|
    ensures !CoveredAt(intervals, c[k].complete)
  {
    var t := c[k].complete;
    forall w | w in intervals
      ensures !(w.submit <= t < w.complete)
    {
      assert InSomeSpan(w, c);
      var j :| 0 <= j < |c| && Within(w, c[j]);
      assert Valid(c[j]) && Valid(c[k]);
    }
  }

  lemma FirstSpanEndsNoEarlier(intervals: set<Interval>, a: seq<Interval>, b: seq<Interval>)
    requires IsCoalescing(intervals, a) && IsCoalescing(intervals, b) && a != [] && b != []
    requires a[0].submit == b[0].submit
    ensures b[0].complete <= a[0].complete
  {
    IdleAtSpanEnd(intervals, a, 0);
    assert Valid(a[0]);
    assert BuiltFrom(intervals, b[0]);
  }

  /** The intervals outside the first span. */
  ghost function Beyond(intervals: set<Interval>, span: Interval): set<Interval> {
    set iv | iv in intervals && !Within(iv, span)
  }

  lemma LaterSpanBuiltBeyondFirst(intervals: set<Interval>, c: seq<Interval>, k: int)
    requires WellFormed(intervals) && IsCoalescing(intervals, c) && 0 < k < |c|
    ensures BuiltFrom(Beyond(intervals, c[0]), c[k])
  {
    var rest := Beyond(intervals, c[0]);
    assert Valid(c[k]);
    assert BuiltFrom(intervals, c[k]);
    var a :| a in intervals && a.submit == c[k].submit;
    assert Valid(a);
    assert a in rest;
    var b :| b in intervals && b.complete == c[k].complete;
    assert b in rest;
    forall t | c[k].submit <= t < c[k].complete
      ensures CoveredAt(rest, t)
    {
      assert CoveredAt(intervals, t);
      var w :| w in intervals && w.submit <= t < w.complete;
      assert w in rest;
    }
  }

  lemma DropFirstSpan(intervals: set<Interval>, c: seq<Interval>)
    requires WellFormed(intervals) && IsCoalescing(intervals, c) && c != []
    ensures WellFormed(Beyond(intervals, c[0])) && IsCoalescing(Beyond(intervals, c[0]), c[1..])
  {
    var rest := Beyond(intervals, c[0]);
    var d := c[1..];
    assert AllValid(d) && Gapped(d);
    forall iv | iv in rest
      ensures InSomeSpan(iv, d)
    {
      assert InSomeSpan(iv, c);
      var k :| 0 <= k < |c| && Within(iv, c[k]);
      assert d[k - 1] == c[k];
    }
    forall k | 0 <= k < |d|
      ensures BuiltFrom(rest, d[k])
    {
      LaterSpanBuiltBeyondFirst(intervals, c, k + 1);
    }
  }

  /** A set of intervals has one list of maximal busy spans and no other. */
  lemma {:induction false} CoalescingUnique(intervals: set<Interval>, a: seq<Interval>, b: seq<Interval>)
    requires WellFormed(intervals) && IsCoalescing(intervals, a) && IsCoalescing(intervals, b)
    ensures a == b
    decreases |a|
  {
    CoalescingEmpty(intervals, a);
    CoalescingEmpty(intervals, b);
    if a != [] {
      FirstSpansStartTogether(intervals, a, b);
      FirstSpanEndsNoEarlier(intervals, a, b);
      FirstSpanEndsNoEarlier(intervals, b, a);
      assert a[0] == b[0];
      DropFirstSpan(intervals, a);
      DropFirstSpan(intervals, b);
      CoalescingUnique(Beyond(intervals, a[0]), a[1..], b[1..]);
      assert a == [a[0]] + a[1..];
      assert b == [b[0]] + b[1..];
    }
  }

  // ---------------------------------------------------------------------------
  // What the sweep computes

  lemma PrefixElems(s: seq<Interval>)
    requires s != []
    ensures Elems(s) == Elems(s[..|s| - 1]) + {s[|s| - 1]}
  {
    assert s == s[..|s| - 1] + [s[|s| - 1]];
  }

  /** Over start-sorted, regular intervals the sweep builds exactly the maximal busy spans. */
  lemma {:induction false} SweepCoalesces(s: seq<Interval>)
    requires SortedByStart(s) && Regular(Elems(s))
    ensures IsCoalescing(Elems(s), Spans(s))
    ensures s != [] ==> SweepOver(s).current.submit <= s[|s| - 1].submit
  {
    if s != [] {
      var p, x := s[..|s| - 1], s[|s| - 1];
      PrefixElems(s);
      assert x in Elems(s);
      SweepCoalesces(p);
      var st := SweepOver(p);
      if p == [] {
        assert SweepOver(s) == Sweep([], x);
        AppendSpan(Elems(p), [], x);
      } else if x.submit > st.current.complete {
        assert SweepOver(s) == Sweep(st.merged + [st.current], x);
        AppendSpan(Elems(p), Spans(p), x);
      } else {
        assert p[|p| - 1].submit <= x.submit;
        ExtendLastSpan(Elems(p), Spans(p), x);
        assert Spans(p)[..|Spans(p)| - 1] == st.merged;
      }
    }
  }

  /**
   * What the source reports for a set of intervals: over any start order,
   * the sweep closes every maximal busy span but the last. So no interval,
   * or intervals forming a single span, report nothing.
   */
  lemma SweepDropsOnlyLastSpan(order: seq<Interval>, intervals: set<Interval>, c: seq<Interval>)
    requires IsStartOrder(order, intervals) && Regular(intervals) && IsCoalescing(intervals, c)
    ensures SweepOver(order).merged == DropLast(c)
  {
    SweepCoalesces(order);
    CoalescingUnique(intervals, Spans(order), c);
  }

  lemma GappedIsSorted(c: seq<Interval>)
    requires AllValid(c) && Gapped(c)
    ensures SortedByStart(c) && Distinct(c)
  {
    forall i, j | 0 <= i < j < |c|
      ensures c[i].submit < c[j].submit
    {
      assert Valid(c[i]);
    }
  }

  lemma SpanBuiltFromItself(c: seq<Interval>, k: int)
    requires 0 <= k < |c|
    ensures BuiltFrom(Elems(c), c[k])
  {
    var span := c[k];
    assert span in Elems(c);
    forall t | span.submit <= t < span.complete
      ensures CoveredAt(Elems(c), t)
    {
      assert span in Elems(c);
    }
  }

  lemma SpansCoalesceThemselves(c: seq<Interval>)
    requires AllValid(c) && Gapped(c)
    ensures IsCoalescing(Elems(c), c)
  {
    forall iv | iv in Elems(c)
      ensures InSomeSpan(iv, c)
    {
      var k :| 0 <= k < |c| && c[k] == iv;
      assert Within(iv, c[k]);
    }
    forall k | 0 <= k < |c|
      ensures BuiltFrom(Elems(c), c[k])
    {
      SpanBuiltFromItself(c, k);
    }
  }

  /** Coalescing the complete span list once more changes nothing. */
  lemma CoalescingIdempotent(s: seq<Interval>)
    requires SortedByStart(s) && Regular(Elems(s))
    ensures Spans(Spans(s)) == Spans(s)
  {
    var c := Spans(s);
    SweepCoalesces(s);
    GappedIsSorted(c);
    forall iv | iv in Elems(c)
      ensures Valid(iv) && Sentinel < iv.submit
    {
      var k :| 0 <= k < |c| && c[k] == iv;
      assert BuiltFrom(Elems(s), c[k]);
      var w :| w in Elems(s) && w.submit == c[k].submit;
    }
    SweepCoalesces(c);
    SpansCoalesceThemselves(c);
    CoalescingUnique(Elems(c), Spans(c), c);
  }

  // ---------------------------------------------------------------------------
  // Durations

  lemma SumAppend(xs: seq<int>, v: int)
    ensures Sum(xs + [v]) == Sum(xs) + v
  {
    assert (xs + [v])[..|xs|] == xs;
  }

  lemma DurationsAppend(c: seq<Interval>, span: Interval)
    ensures Durations(c + [span]) == Durations(c) + [Length(span)]
  {
  }

  lemma {:induction false} SweepWithinTotalLength(s: seq<Interval>)
    requires forall i :: 0 <= i < |s| ==> Valid(s[i])
    ensures Valid(SweepOver(s).current)
    ensures Sum(Durations(SweepOver(s).merged)) + Length(SweepOver(s).current) <= TotalLength(s)
  {
    if s != [] {
      var p, x := s[..|s| - 1], s[|s| - 1];
      SweepWithinTotalLength(p);
      var st := SweepOver(p);
      assert Valid(x);
      if x.submit > st.current.complete && |s| != 1 {
        DurationsAppend(st.merged, st.current);
        SumAppend(Durations(st.merged), Length(st.current));
      }
    }
  }

  /**
   * The busy time the source reports, and even the busy time of every span,
   * never exceeds the naive sum of the interval lengths.
   */
  lemma BusyTimeAtMostNaiveSum(s: seq<Interval>)
    requires forall i :: 0 <= i < |s| ==> Valid(s[i])
    ensures Sum(Durations(SweepOver(s).merged)) <= TotalLength(s)
    ensures Sum(Durations(Spans(s))) <= TotalLength(s)
  {
    SweepWithinTotalLength(s);
    if s != [] {
      DurationsAppend(SweepOver(s).merged, SweepOver(s).current);
      SumAppend(Durations(SweepOver(s).merged), Length(SweepOver(s).current));
    }
  }

  /** The durations of a list of intervals add up to the naive sum of their lengths. */
  lemma {:induction false} DurationsSumToTotalLength(s: seq<Interval>)
    ensures Sum(Durations(s)) == TotalLength(s)
  {
    if s != [] {
      var p, x := s[..|s| - 1], s[|s| - 1];
      assert s == p + [x];
      DurationsAppend(p, x);
      SumAppend(Durations(p), Length(x));
      DurationsSumToTotalLength(p);
    }
  }

  /**
   * When no two intervals overlap or touch, each is a span of its own: the
   * spans are the intervals, the busy time is the naive sum, and the source
   * reports every interval but the last. (The converse fails for intervals
   * of length zero, which add nothing to the naive sum wherever they lie.)
   */
  lemma GappedIntervalsKeepTheirLength(s: seq<Interval>)
    requires AllValid(s) && Gapped(s)
    requires forall i :: 0 <= i < |s| ==> Sentinel < s[i].submit
    ensures Spans(s) == s
    ensures Sum(Durations(Spans(s))) == TotalLength(s)
    ensures SweepOver(s).merged == DropLast(s)
  {
    GappedIsSorted(s);
    forall iv | iv in Elems(s)
      ensures Valid(iv) && Sentinel < iv.submit
    {
      var i :| 0 <= i < |s| && s[i] == iv;
    }
    SweepCoalesces(s);
    SpansCoalesceThemselves(s);
    CoalescingUnique(Elems(s), Spans(s), s);
    DurationsSumToTotalLength(s);
    if s != [] {
      assert SweepOver(s).merged == Spans(s)[..|s| - 1];
    }
  }

  // ---------------------------------------------------------------------------
  // One step of the sweep

  /**
   * A new span opens only on a start strictly after the open span's end; an
   * interval starting at or before that end (touching included) joins the
   * open span, whose end never moves back.
   */
  lemma {:induction false} OpenSpanEndNeverShrinks(s: seq<Interval>, x: Interval)
    ensures var before, after := SweepOver(s), SweepOver(s + [x]);
            if x.submit > before.current.complete then after.current == x
            else after.merged == before.merged && after.current.submit == before.current.submit
                 && after.current.complete >= before.current.complete
                 && after.current.complete >= x.complete
  {
    assert (s + [x])[..|s|] == s;
  }

  /** An interval that starts at or before the sentinel joins the sentinel's span. */
  lemma EarlyFirstIntervalJoinsSentinelSpan(iv: Interval)
    requires iv.submit <= Sentinel
    ensures SweepOver([iv]).merged == []
    ensures SweepOver([iv]).current.submit == Sentinel
  {
    assert [iv][..0] == [];
  }

  const Hour: Time := 3600 * 1000000

  /** Three intervals, (00:00, 01:00), (00:30, 02:00) and (03:00, 04:00), after the epoch. */
  function Example(): seq<Interval> {
    [Interval(0, Hour), Interval(Hour / 2, 2 * Hour), Interval(3 * Hour, 4 * Hour)]
  }

  /**
   * The spans of the example are (00:00, 02:00) and (03:00, 04:00), three
   * hours of busy time, but the sweep closes only the first: two hours.
   */
  lemma ExampleDropsLastSpan()
    ensures Spans(Example()) == [Interval(0, 2 * Hour), Interval(3 * Hour, 4 * Hour)]
    ensures Sum(Durations(Spans(Example()))) == 3 * Hour
    ensures SweepOver(Example()).merged == [Interval(0, 2 * Hour)]
    ensures Sum(Durations(SweepOver(Example()).merged)) == 2 * Hour
  {
    var s := Example();
    assert s[..1] == [s[0]];
    assert s[..2] == [s[0], s[1]];
    assert [s[0], s[1]][..1] == [s[0]];
    assert [s[0]][..0] == [];
    assert SweepOver(s[..1]) == Sweep([], s[0]);
    assert SweepOver(s[..2]) == Sweep([], Interval(0, 2 * Hour));
    var c := [Interval(0, 2 * Hour), Interval(3 * Hour, 4 * Hour)];
    assert Durations(c) == [2 * Hour, Hour];
    assert [2 * Hour, Hour][..1] == [2 * Hour];
    assert Durations([Interval(0, 2 * Hour)]) == [2 * Hour];
    assert [2 * Hour][..0] == [];
  }

  /** Touching intervals (t0, t1) and (t1, t2) form the single span (t0, t2). */
  lemma TouchingIntervalsMerge(t0: Time, t1: Time, t2: Time)
    requires Sentinel < t0 <= t1 <= t2
    ensures Spans([Interval(t0, t1), Interval(t1, t2)]) == [Interval(t0, t2)]
  {
    var s := [Interval(t0, t1), Interval(t1, t2)];
    assert s[..1] == [Interval(t0, t1)];
    assert [Interval(t0, t1)][..0] == [];
    assert SweepOver(s[..1]) == Sweep([], Interval(t0, t1));
    assert SweepOver(s) == Sweep([], Interval(t0, t2));
  }

  /** Overlapping intervals (t0, t2) and (t1, t3) form the single span (t0, t3). */
  lemma OverlappingIntervalsMerge(t0: Time, t1: Time, t2: Time, t3: Time)
    requires Sentinel < t0 < t1 < t2 < t3
    ensures Spans([Interval(t0, t2), Interval(t1, t3)]) == [Interval(t0, t3)]
  {
    var s := [Interval(t0, t2), Interval(t1, t3)];
    assert s[..1] == [Interval(t0, t2)];
    assert [Interval(t0, t2)][..0] == [];
    assert SweepOver(s[..1]) == Sweep([], Interval(t0, t2));
    assert SweepOver(s) == Sweep([], Interval(t0, t3));
  }
}
