/** Interval union of scripts/sdd/profile_execution.py, over integer clock ticks.
  *
  * A span stands for the ticks start <= x < end, so one that does not end after
  * it starts is empty. The total of the merged list is shown to be the number of distinct ticks
  * covered: time shared by several spans is counted once and no time is invented.
  */
module Intervals {
  import opened Collections
  import opened Sorting

  datatype Span = Span(start: int, end: int)

  ghost predicate Covers(spans: seq<Span>, x: int) {
    exists i :: 0 <= i < |spans| && spans[i].start <= x < spans[i].end
  }

  predicate Between(lo: int, x: int, hi: int) {
    lo <= x < hi
  }

  ghost function Range(lo: int, hi: int): set<int> {
    set x | lo <= x < hi && Between(lo, x, hi)
  }

  lemma {:induction false} RangeCard(lo: int, hi: int)
    requires lo <= hi
    ensures |Range(lo, hi)| == hi - lo
    decreases hi - lo
  {
    if lo < hi {
      RangeCard(lo, hi - 1);
      assert Range(lo, hi) == Range(lo, hi - 1) + {hi - 1};
    }
  }

  /** The ticks covered by at least one span. */
  ghost function Ticks(spans: seq<Span>): set<int> {
    if spans == [] then {}
    else Ticks(spans[..|spans| - 1]) + Range(spans[|spans| - 1].start, spans[|spans| - 1].end)
  }

  lemma {:induction false} TicksAreCovered(spans: seq<Span>, x: int)
    ensures x in Ticks(spans) <==> Covers(spans, x)
  {
    if spans != [] {
      var init, last := spans[..|spans| - 1], spans[|spans| - 1];
      TicksAreCovered(init, x);
      if Covers(init, x) {
        var i :| 0 <= i < |init| && init[i].start <= x < init[i].end;
        assert spans[i] == init[i];
      }
      if Covers(spans, x) && x !in Range(last.start, last.end) {
        var i :| 0 <= i < |spans| && spans[i].start <= x < spans[i].end;
        assert init[i] == spans[i];
      }
    }
  }

  /** A covered tick with the span that covers it. */
  lemma SpanAt(spans: seq<Span>, x: int) returns (i: nat)
    requires x in Ticks(spans)
    ensures i < |spans| && spans[i].start <= x < spans[i].end
  {
    TicksAreCovered(spans, x);
    i :| 0 <= i < |spans| && spans[i].start <= x < spans[i].end;
  }

  lemma CoveredAt(spans: seq<Span>, i: nat, x: int)
    requires i < |spans| && spans[i].start <= x < spans[i].end
    ensures x in Ticks(spans)
  {
    TicksAreCovered(spans, x);
  }

  /** Sorted, non-empty, and each span ends strictly before the next begins. */
  ghost predicate Separated(spans: seq<Span>) {
    && (forall i :: 0 <= i < |spans| ==> spans[i].start < spans[i].end)
    && (forall i, j :: 0 <= i < j < |spans| ==> spans[i].end < spans[j].start)
  }

  function Total(spans: seq<Span>): int {
    if spans == [] then 0
    else Total(spans[..|spans| - 1]) + spans[|spans| - 1].end - spans[|spans| - 1].start
  }

  // ---------------------------------------------------------------------
  // Sorting and filtering the input
  // ---------------------------------------------------------------------

  /** The order of pairs. */
  predicate Leq(a: Span, b: Span) {
    a.start < b.start || (a.start == b.start && a.end <= b.end)
  }

  function NonEmpty(spans: seq<Span>): (r: seq<Span>)
    ensures forall i :: 0 <= i < |r| ==> r[i].start < r[i].end
    ensures forall s: Span :: s in r <==> s in spans && s.start < s.end
  {
    if spans == [] then []
    else
      var init, last := spans[..|spans| - 1], spans[|spans| - 1];
      assert spans == init + [last];
      NonEmpty(init) + if last.end > last.start then [last] else []
  }

  lemma SameMembersSameTicks(a: seq<Span>, b: seq<Span>)
    requires forall s: Span :: s.start < s.end && s in a ==> s in b
    ensures Ticks(a) <= Ticks(b)
  {
    forall x | x in Ticks(a) ensures x in Ticks(b) {
      var i := SpanAt(a, x);
      var k :| 0 <= k < |b| && b[k] == a[i];
      CoveredAt(b, k, x);
    }
  }

  // ---------------------------------------------------------------------
  // Merging
  // ---------------------------------------------------------------------

  lemma TicksAppend(spans: seq<Span>, s: Span)
    ensures Ticks(spans + [s]) == Ticks(spans) + Range(s.start, s.end)
  {
    assert (spans + [s])[..|spans|] == spans;
  }

  /** The three cases of one merging round; start is a lower bound on what is still to come. */
  ghost predicate Merged(merged: seq<Span>, ticks: set<int>, start: int) {
    Separated(merged) && Ticks(merged) == ticks && (merged != [] ==> merged[|merged| - 1].start <= start)
  }

  lemma ExtendLast(merged: seq<Span>, ticks: set<int>, span: Span)
    requires Merged(merged, ticks, span.start) && merged != []
    requires span.start <= merged[|merged| - 1].end < span.end
    ensures var extended := merged[..|merged| - 1] + [Span(merged[|merged| - 1].start, span.end)];
            Merged(extended, ticks + Range(span.start, span.end), span.start)
  {
    var init, last := merged[..|merged| - 1], merged[|merged| - 1];
    assert merged == init + [last];
    TicksAppend(init, last);
    TicksAppend(init, Span(last.start, span.end));
    assert Range(last.start, span.end) == Range(last.start, last.end) + Range(span.start, span.end);
  }

  lemma AbsorbInLast(merged: seq<Span>, ticks: set<int>, span: Span)
    requires Merged(merged, ticks, span.start) && merged != []
    requires span.end <= merged[|merged| - 1].end
    ensures Merged(merged, ticks + Range(span.start, span.end), span.start)
  {
    var init, last := merged[..|merged| - 1], merged[|merged| - 1];
    assert merged == init + [last];
    TicksAppend(init, last);
    assert Range(span.start, span.end) <= Range(last.start, last.end);
    assert ticks + Range(span.start, span.end) == ticks;
  }

  lemma AppendNew(merged: seq<Span>, ticks: set<int>, span: Span)
    requires Merged(merged, ticks, span.start) && span.start < span.end
    requires merged != [] ==> merged[|merged| - 1].end < span.start
    ensures Merged(merged + [span], ticks + Range(span.start, span.end), span.start)
  {
    TicksAppend(merged, span);
    forall i | 0 <= i < |merged| ensures merged[i].end < span.start {
      assert i < |merged| - 1 ==> merged[i].end < merged[|merged| - 1].start;
    }
  }

  /** In the order the merging pass needs: by start, and without empty spans. */
  ghost predicate Cleaned(spans: seq<Span>) {
    && (forall i :: 0 <= i < |spans| ==> spans[i].start < spans[i].end)
    && (forall i, j :: 0 <= i < j < |spans| ==> spans[i].start <= spans[j].start)
  }

  ghost function Bound(cleaned: seq<Span>, i: nat): int
    requires cleaned != [] && i <= |cleaned|
  {
    cleaned[if i < |cleaned| then i else i - 1].start
  }

  lemma NextRound(cleaned: seq<Span>, i: nat, merged: seq<Span>)
    requires Cleaned(cleaned) && i < |cleaned|
    requires Merged(merged, Ticks(cleaned[..i]) + Range(cleaned[i].start, cleaned[i].end), cleaned[i].start)
    ensures Merged(merged, Ticks(cleaned[..i + 1]), Bound(cleaned, i + 1))
  {
    assert cleaned[..i + 1] == cleaned[..i] + [cleaned[i]];
    TicksAppend(cleaned[..i], cleaned[i]);
  }

  /** The merging pass over the sorted, non-empty spans. */
  method MergeSorted(cleaned: seq<Span>) returns (merged: seq<Span>)
    requires Cleaned(cleaned)
    ensures Separated(merged) && Ticks(merged) == Ticks(cleaned)
  {
    merged := [];
    if cleaned == [] {
      return;
    }
    for i := 0 to |cleaned|
      invariant Merged(merged, Ticks(cleaned[..i]), Bound(cleaned, i))
    {
      merged := MergeOne(merged, Ticks(cleaned[..i]), cleaned[i]);
      NextRound(cleaned, i, merged);
    }
    assert cleaned[..|cleaned|] == cleaned;
  }

  /** The body of the pass: extend the last span, drop the new one inside it, or append. */
  method MergeOne(merged: seq<Span>, ghost ticks: set<int>, span: Span) returns (next: seq<Span>)
    requires Merged(merged, ticks, span.start) && span.start < span.end
    ensures Merged(next, ticks + Range(span.start, span.end), span.start)
  {
    if merged != [] && span.start <= merged[|merged| - 1].end {
      if span.end > merged[|merged| - 1].end {
        ExtendLast(merged, ticks, span);
        next := merged[..|merged| - 1] + [Span(merged[|merged| - 1].start, span.end)];
      } else {
        AbsorbInLast(merged, ticks, span);
        next := merged;
      }
    } else {
      AppendNew(merged, ticks, span);
      next := merged + [span];
    }
  }

  lemma SortedIsCleaned(intervals: seq<Span>, cleaned: seq<Span>)
    requires cleaned == Sort(NonEmpty(intervals), Leq)
    ensures Cleaned(cleaned)
    ensures forall s: Span :: s in cleaned <==> s in intervals && s.start < s.end
  {
    var n := NonEmpty(intervals);
    SameMembers(cleaned, n);
    forall i | 0 <= i < |cleaned| ensures cleaned[i].start < cleaned[i].end {
      assert cleaned[i] in n;
    }
    SortOrdered(n, Leq);
    forall i, j | 0 <= i < j < |cleaned| ensures cleaned[i].start <= cleaned[j].start {
      assert Leq(cleaned[i], cleaned[j]);
    }
  }

  lemma CleaningKeepsTicks(intervals: seq<Span>, cleaned: seq<Span>)
    requires forall s: Span :: s in cleaned <==> s in intervals && s.start < s.end
    ensures Ticks(cleaned) == Ticks(intervals)
  {
    SameMembersSameTicks(cleaned, intervals);
    SameMembersSameTicks(intervals, cleaned);
  }

  /** Merge overlapping or touching spans into a separated list of the same ticks. */
  method MergeIntervals(intervals: seq<Span>) returns (merged: seq<Span>)
    ensures Separated(merged)
    ensures Ticks(merged) == Ticks(intervals)
  {
    var cleaned := Sort(NonEmpty(intervals), Leq);
    SortedIsCleaned(intervals, cleaned);
    CleaningKeepsTicks(intervals, cleaned);
    merged := MergeSorted(cleaned);
  }

  /** A separated list's total is the number of ticks it covers. */
  lemma {:induction false} TotalIsMeasure(spans: seq<Span>)
    requires Separated(spans)
    ensures Total(spans) == |Ticks(spans)|
  {
    if spans != [] {
      var init, last := spans[..|spans| - 1], spans[|spans| - 1];
      TotalIsMeasure(init);
      var block := Range(last.start, last.end);
      RangeCard(last.start, last.end);
      forall x | x in Ticks(init) ensures x !in block {
        var i := SpanAt(init, x);
        assert spans[i].end < spans[|spans| - 1].start;
      }
    }
  }

  lemma InitTicks(a: seq<Span>)
    requires Separated(a) && a != []
    ensures forall x :: x in Ticks(a[..|a| - 1]) <==> x in Ticks(a) && x < a[|a| - 1].start
  {
    var init := a[..|a| - 1];
    forall x | x in Ticks(init) ensures x < a[|a| - 1].start {
      var i := SpanAt(init, x);
      assert a[i].end < a[|a| - 1].start;
    }
  }

  lemma LastSpanAgrees(a: seq<Span>, b: seq<Span>)
    requires Separated(a) && Separated(b) && Ticks(a) == Ticks(b) && a != []
    ensures b != [] && a[|a| - 1].end <= b[|b| - 1].end
    ensures b[|b| - 1].end == a[|a| - 1].end ==> b[|b| - 1].start <= a[|a| - 1].start
  {
    var la := a[|a| - 1];
    CoveredAt(a, |a| - 1, la.end - 1);
    var i := SpanAt(b, la.end - 1);
    var lb := b[|b| - 1];
    assert i < |b| - 1 ==> b[i].end < lb.start;
    if lb.end == la.end && la.start < lb.start {
      // the tick just before lb begins is covered by la but by nothing in b
      CoveredAt(a, |a| - 1, lb.start - 1);
      var k := SpanAt(b, lb.start - 1);
      assert false;
    }
  }

  lemma InitsAgree(a: seq<Span>, b: seq<Span>)
    requires Separated(a) && Separated(b) && Ticks(a) == Ticks(b)
    requires a != [] && b != [] && a[|a| - 1].start == b[|b| - 1].start
    ensures Separated(a[..|a| - 1]) && Separated(b[..|b| - 1])
    ensures Ticks(a[..|a| - 1]) == Ticks(b[..|b| - 1])
  {
    InitTicks(a);
    InitTicks(b);
  }

  /** A separated list is determined by the ticks it covers. */
  lemma {:induction false} SeparatedUnique(a: seq<Span>, b: seq<Span>)
    requires Separated(a) && Separated(b) && Ticks(a) == Ticks(b)
    ensures a == b
    decreases |a|
  {
    if a == [] {
      if b != [] {
        LastSpanAgrees(b, a);
      }
    } else {
      LastSpanAgrees(a, b);
      LastSpanAgrees(b, a);
      assert a[|a| - 1] == b[|b| - 1];
      InitsAgree(a, b);
      var a', b' := a[..|a| - 1], b[..|b| - 1];
      SeparatedUnique(a', b');
      assert a == a' + [a[|a| - 1]] && b == b' + [b[|b| - 1]];
    }
  }

  // ---------------------------------------------------------------------
  // Totals
  // ---------------------------------------------------------------------

  /** The number of seconds (here: ticks) during which at least one span was active. */
  method UnionTicks(intervals: seq<Span>) returns (total: int)
    ensures total == |Ticks(intervals)|
  {
    var merged := MergeIntervals(intervals);
    TotalIsMeasure(merged);
    total := 0;
    for i := 0 to |merged|
      invariant total == Total(merged[..i])
    {
      assert merged[..i + 1][..i] == merged[..i];
      total := total + (merged[i].end - merged[i].start);
    }
    assert merged[..|merged|] == merged;
  }

  /** Reordering the input, or repeating spans of it, does not change the merged list. */
  lemma MergeIgnoresOrder(a: seq<Span>, b: seq<Span>, ma: seq<Span>, mb: seq<Span>)
    requires forall s: Span :: s.start < s.end ==> (s in a <==> s in b)
    requires Separated(ma) && Ticks(ma) == Ticks(a)
    requires Separated(mb) && Ticks(mb) == Ticks(b)
    ensures ma == mb
  {
    SameMembersSameTicks(a, b);
    SameMembersSameTicks(b, a);
    SeparatedUnique(ma, mb);
  }

  datatype Active = Active(category: string, span: Span)

  function SpansOf(active: seq<Active>): (r: seq<Span>)
    ensures |r| == |active| && forall i :: 0 <= i < |r| ==> r[i] == active[i].span
  {
    seq(|active|, i requires 0 <= i < |active| => active[i].span)
  }

  function InCategory(active: seq<Active>, c: string): (r: seq<Span>)
    ensures forall s :: s in r <==> Active(c, s) in active
  {
    if active == [] then []
    else
      var init, last := active[..|active| - 1], active[|active| - 1];
      assert active == init + [last];
      InCategory(init, c) + if last.category == c then [last.span] else []
  }

  ghost function Categories(active: seq<Active>): set<string> {
    set a | a in active :: a.category
  }

  lemma BucketInUnion(active: seq<Active>, c: string)
    ensures Ticks(InCategory(active, c)) <= Ticks(SpansOf(active))
    ensures |Ticks(InCategory(active, c))| <= |Ticks(SpansOf(active))|
  {
    var bucket, all := InCategory(active, c), SpansOf(active);
    forall x | x in Ticks(bucket) ensures x in Ticks(all) {
      var i := SpanAt(bucket, x);
      assert bucket[i] in bucket;
      var k :| 0 <= k < |active| && active[k] == Active(c, bucket[i]);
      CoveredAt(all, k, x);
    }
    SubsetCard(Ticks(bucket), Ticks(all));
  }

  ghost function BucketSum(active: seq<Active>, cs: set<string>): nat {
    if cs == {} then 0
    else
      var c :| c in cs;
      |Ticks(InCategory(active, c))| + BucketSum(active, cs - {c})
  }

  ghost function BucketTicks(active: seq<Active>, cs: set<string>): set<int> {
    set x | x in Ticks(SpansOf(active)) && exists c :: c in cs && x in Ticks(InCategory(active, c))
  }

  lemma {:induction false} BucketSumCovers(active: seq<Active>, cs: set<string>)
    ensures |BucketTicks(active, cs)| <= BucketSum(active, cs)
  {
    if cs == {} {
      assert BucketTicks(active, cs) == {};
    } else {
      var c :| c in cs && BucketSum(active, cs) ==
                          |Ticks(InCategory(active, c))| + BucketSum(active, cs - {c});
      BucketSumCovers(active, cs - {c});
      var here, rest := Ticks(InCategory(active, c)), BucketTicks(active, cs - {c});
      assert BucketTicks(active, cs) <= here + rest;
      SubsetCard(BucketTicks(active, cs), here + rest);
    }
  }

  /** Every category bucket is at most the global union, which is at most the buckets' sum. */
  lemma UnionBetweenBuckets(active: seq<Active>)
    ensures forall c :: |Ticks(InCategory(active, c))| <= |Ticks(SpansOf(active))|
    ensures |Ticks(SpansOf(active))| <= BucketSum(active, Categories(active))
  {
    forall c ensures |Ticks(InCategory(active, c))| <= |Ticks(SpansOf(active))| {
      BucketInUnion(active, c);
    }
    var all, cs := SpansOf(active), Categories(active);
    forall x | x in Ticks(all) ensures x in BucketTicks(active, cs) {
      var i := SpanAt(all, x);
      var c := active[i].category;
      assert c in cs;
      var bucket := InCategory(active, c);
      assert Active(c, all[i]) == active[i];
      assert all[i] in bucket;
      var k :| 0 <= k < |bucket| && bucket[k] == all[i];
      CoveredAt(bucket, k, x);
    }
    assert BucketTicks(active, cs) == Ticks(all);
    BucketSumCovers(active, cs);
  }
}
