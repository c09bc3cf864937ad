/** Threshold ladders and the grouped statistics of the classification
    queries. A ladder is a list of bands, each a label with an inclusive
    lower bound, tried in order, plus a fallback label for scores below
    every band: the shape of a SQL `CASE WHEN cgpa >= b1 THEN l1 WHEN ...
    ELSE fallback END`. The grouped query (`GROUP BY` the label with
    `COUNT`, `MIN`, `MAX`, `AVG` and `ORDER BY` the minimum descending) is
    modelled as its expected result. */
module Grading {
  import opened Wrappers
  import opened Seqs

  datatype Band<L> = Band(name: L, lower: int)
  datatype Ladder<L> = Ladder(bands: seq<Band<L>>, fallback: L)

  /** The lower bounds strictly decrease in ladder order. */
  predicate Descending<L>(bands: seq<Band<L>>)
  {
    forall i, j :: 0 <= i < j < |bands| ==> bands[i].lower > bands[j].lower
  }

  /** The position of the first band whose lower bound the score reaches,
      or `|bands|` (the fallback) when it reaches none. */
  function BandIndex<L>(bands: seq<Band<L>>, score: int): (k: nat)
    ensures k <= |bands|
    ensures forall j :: 0 <= j < k ==> score < bands[j].lower
    ensures k < |bands| ==> bands[k].lower <= score
  {
    if bands == [] then 0
    else if bands[0].lower <= score then 0
    else 1 + BandIndex(bands[1..], score)
  }

  /** The label at ladder position `k`; position `|bands|` is the fallback. */
  function LabelAt<L>(ladder: Ladder<L>, k: nat): L
    requires k <= |ladder.bands|
  {
    if k < |ladder.bands| then ladder.bands[k].name else ladder.fallback
  }

  /** The label of the first matching band (first match wins). */
  function Classify<L>(ladder: Ladder<L>, score: int): L
  {
    LabelAt(ladder, BandIndex(ladder.bands, score))
  }

  /** On a strictly descending ladder, position `k` is chosen exactly when
      the score lies in the half-open interval `[bands[k].lower,
      bands[k-1].lower)`, unbounded above for the first band and below for
      the fallback. So every score gets exactly one label. */
  lemma BandIndexInterval<L>(bands: seq<Band<L>>, score: int, k: nat)
    requires Descending(bands)
    requires k <= |bands|
    ensures BandIndex(bands, score) == k <==>
              (k == 0 || score < bands[k - 1].lower) &&
              (k == |bands| || bands[k].lower <= score)
  {
  }

  // ---------------------------------------------------------------------
  // Grouping

  /** The scores placed at ladder position `k`, in input order. */
  function Members<L>(bands: seq<Band<L>>, scores: seq<int>, k: nat): seq<int>
  {
    if scores == [] then []
    else (if BandIndex(bands, scores[0]) == k then [scores[0]] else []) + Members(bands, scores[1..], k)
  }

  /** A group holds exactly the scores classified to it, so the groups
      partition the input: each score belongs to the group of its own band
      and to no other. */
  lemma {:induction false} MembersExactly<L>(bands: seq<Band<L>>, scores: seq<int>, k: nat, x: int)
    ensures x in Members(bands, scores, k) <==> x in scores && BandIndex(bands, x) == k
  {
    if scores != [] {
      MembersExactly(bands, scores[1..], k, x);
      assert scores == [scores[0]] + scores[1..];
    }
  }

  /** The partition counted with multiplicity: group `k` holds every copy
      of each score classified to `k` and no copy of any other score. */
  lemma {:induction false} MembersMultiplicity<L>(bands: seq<Band<L>>, scores: seq<int>, k: nat, x: int)
    ensures multiset(Members(bands, scores, k))[x] ==
      if BandIndex(bands, x) == k then multiset(scores)[x] else 0
  {
    if scores != [] {
      MembersMultiplicity(bands, scores[1..], k, x);
      assert scores == [scores[0]] + scores[1..];
      assert multiset(scores) == multiset([scores[0]]) + multiset(scores[1..]);
      var head := if BandIndex(bands, scores[0]) == k then [scores[0]] else [];
      assert multiset(Members(bands, scores, k)) == multiset(head) + multiset(Members(bands, scores[1..], k));
    }
  }

  /** How many scores are classified at position `k` or later. */
  function CountFrom<L>(bands: seq<Band<L>>, scores: seq<int>, k: nat): nat
  {
    if scores == [] then 0
    else (if BandIndex(bands, scores[0]) >= k then 1 else 0) + CountFrom(bands, scores[1..], k)
  }

  lemma {:induction false} CountFromSplit<L>(bands: seq<Band<L>>, scores: seq<int>, k: nat)
    ensures CountFrom(bands, scores, k) == |Members(bands, scores, k)| + CountFrom(bands, scores, k + 1)
  {
    if scores != [] {
      CountFromSplit(bands, scores[1..], k);
    }
  }

  lemma {:induction false} CountFromEnds<L>(bands: seq<Band<L>>, scores: seq<int>)
    ensures CountFrom(bands, scores, 0) == |scores|
    ensures CountFrom(bands, scores, |bands| + 1) == 0
  {
    if scores != [] {
      CountFromEnds(bands, scores[1..]);
    }
  }

  /** One row of a grouped query: the label with `COUNT`, `MIN`, `MAX` and the
      sum behind `AVG`. */
  datatype CategoryStats<L> = CategoryStats(category: L, count: nat, minScore: int, maxScore: int, total: int)
  {
    function Average(): real
      requires count > 0
    {
      total as real / count as real
    }
  }

  function StatsOf<L>(category: L, scores: seq<int>): CategoryStats<L>
    requires |scores| > 0
  {
    CategoryStats(category, |scores|, Min(scores), Max(scores), Sum(scores))
  }

  /** One row per non-empty group from ladder position `k` on, in ladder order. */
  function SummarizeFrom<L>(ladder: Ladder<L>, scores: seq<int>, k: nat): seq<CategoryStats<L>>
    decreases |ladder.bands| + 1 - k
  {
    if k > |ladder.bands| then []
    else
      var m := Members(ladder.bands, scores, k);
      (if m == [] then [] else [StatsOf(LabelAt(ladder, k), m)]) + SummarizeFrom(ladder, scores, k + 1)
  }

  /** The expected result of the grouped query: empty groups do not appear. */
  function Summarize<L>(ladder: Ladder<L>, scores: seq<int>): seq<CategoryStats<L>>
  {
    SummarizeFrom(ladder, scores, 0)
  }

  function CountSum<L>(stats: seq<CategoryStats<L>>): int
  {
    if stats == [] then 0 else stats[0].count + CountSum(stats[1..])
  }

  lemma {:induction false} CountSumAppend<L>(a: seq<CategoryStats<L>>, b: seq<CategoryStats<L>>)
    ensures CountSum(a + b) == CountSum(a) + CountSum(b)
  {
    if a != [] {
      assert (a + b)[0] == a[0];
      assert (a + b)[1..] == a[1..] + b;
      CountSumAppend(a[1..], b);
    } else {
      assert a + b == b;
    }
  }

  lemma {:induction false} SummarizeFromCounts<L>(ladder: Ladder<L>, scores: seq<int>, k: nat)
    ensures CountSum(SummarizeFrom(ladder, scores, k)) == CountFrom(ladder.bands, scores, k)
    decreases |ladder.bands| + 1 - k
  {
    if k > |ladder.bands| {
      CountFromEnds(ladder.bands, scores);
      CountFromBeyond(ladder.bands, scores, k);
    } else {
      var m := Members(ladder.bands, scores, k);
      var head := if m == [] then [] else [StatsOf(LabelAt(ladder, k), m)];
      SummarizeFromCounts(ladder, scores, k + 1);
      CountSumAppend(head, SummarizeFrom(ladder, scores, k + 1));
      CountFromSplit(ladder.bands, scores, k);
    }
  }

  lemma {:induction false} CountFromBeyond<L>(bands: seq<Band<L>>, scores: seq<int>, k: nat)
    requires k > |bands|
    ensures CountFrom(bands, scores, k) == 0
  {
    if scores != [] {
      CountFromBeyond(bands, scores[1..], k);
    }
  }

  /** The counts of the grouped query add up to the number of scores. */
  lemma SummarizeCounts<L>(ladder: Ladder<L>, scores: seq<int>)
    ensures CountSum(Summarize(ladder, scores)) == |scores|
  {
    SummarizeFromCounts(ladder, scores, 0);
    CountFromEnds(ladder.bands, scores);
  }

  /** The scores of a non-empty group `k` lie within band `k`'s interval. */
  lemma GroupBounds<L>(bands: seq<Band<L>>, scores: seq<int>, k: nat)
    requires Descending(bands)
    requires k <= |bands| && Members(bands, scores, k) != []
    ensures k < |bands| ==> bands[k].lower <= Min(Members(bands, scores, k))
    ensures 0 < k ==> Max(Members(bands, scores, k)) < bands[k - 1].lower
  {
    var m := Members(bands, scores, k);
    MembersExactly(bands, scores, k, Min(m));
    MembersExactly(bands, scores, k, Max(m));
    BandIndexInterval(bands, Min(m), k);
    BandIndexInterval(bands, Max(m), k);
  }

  /** Every row of SummarizeFrom(k) comes from a group at position k or
      later, so its scores lie below the bound of band k - 1. */
  lemma {:induction false} SummarizeFromBelow<L>(ladder: Ladder<L>, scores: seq<int>, k: nat)
    requires Descending(ladder.bands)
    requires 0 < k <= |ladder.bands|
    ensures forall e :: e in SummarizeFrom(ladder, scores, k) ==> e.maxScore < ladder.bands[k - 1].lower
    decreases |ladder.bands| + 1 - k
  {
    var bands := ladder.bands;
    var m := Members(bands, scores, k);
    var tail := SummarizeFrom(ladder, scores, k + 1);
    if k < |bands| {
      SummarizeFromBelow(ladder, scores, k + 1);
      assert bands[k].lower < bands[k - 1].lower;
    }
    if m != [] {
      GroupBounds(bands, scores, k);
    }
  }

  /** `e` is the grouped row of ladder position `j`: its category is the
      label at `j` and its figures are those of the non-empty group `j`. */
  ghost predicate IsGroupRow<L>(ladder: Ladder<L>, scores: seq<int>, j: nat, e: CategoryStats<L>)
  {
    j <= |ladder.bands| && Members(ladder.bands, scores, j) != [] &&
    e == StatsOf(LabelAt(ladder, j), Members(ladder.bands, scores, j))
  }

  lemma {:induction false} SummarizeFromRows<L>(ladder: Ladder<L>, scores: seq<int>, k: nat, e: CategoryStats<L>)
    ensures e in SummarizeFrom(ladder, scores, k) <==> exists j :: k <= j && IsGroupRow(ladder, scores, j, e)
    decreases |ladder.bands| + 1 - k
  {
    if k <= |ladder.bands| {
      SummarizeFromRows(ladder, scores, k + 1, e);
      var m := Members(ladder.bands, scores, k);
      var head := if m == [] then [] else [StatsOf(LabelAt(ladder, k), m)];
      assert SummarizeFrom(ladder, scores, k) == head + SummarizeFrom(ladder, scores, k + 1);
      if e in head {
        assert IsGroupRow(ladder, scores, k, e);
      }
      if exists j :: k <= j && IsGroupRow(ladder, scores, j, e) {
        var j :| k <= j && IsGroupRow(ladder, scores, j, e);
        if j == k {
          assert e in head;
        } else {
          assert k + 1 <= j;
        }
      }
    }
  }

  /** The grouped query has exactly one row for each non-empty group: a row
      is in the result if and only if it carries the label of some ladder
      position whose group is non-empty, with that group's count, minimum,
      maximum and sum. */
  lemma SummarizeRows<L>(ladder: Ladder<L>, scores: seq<int>, e: CategoryStats<L>)
    ensures e in Summarize(ladder, scores) <==> exists j :: IsGroupRow(ladder, scores, j, e)
  {
    SummarizeFromRows(ladder, scores, 0, e);
  }

  /** Every score of a later row is below every score of an earlier one. */
  predicate RangesDescending<L>(r: seq<CategoryStats<L>>)
  {
    forall i, j :: 0 <= i < j < |r| ==> r[j].maxScore < r[i].minScore
  }

  lemma PrependRange<L>(e: CategoryStats<L>, tail: seq<CategoryStats<L>>)
    requires RangesDescending(tail)
    requires forall x :: x in tail ==> x.maxScore < e.minScore
    ensures RangesDescending([e] + tail)
  {
    var r := [e] + tail;
    forall i, j | 0 <= i < j < |r| ensures r[j].maxScore < r[i].minScore {
      assert r[j] == tail[j - 1];
      if i > 0 {
        assert r[i] == tail[i - 1];
      }
    }
  }

  /** The rows of SummarizeFrom(k) have disjoint, descending score ranges. */
  lemma {:induction false} SummarizeFromOrdered<L>(ladder: Ladder<L>, scores: seq<int>, k: nat)
    requires Descending(ladder.bands)
    ensures RangesDescending(SummarizeFrom(ladder, scores, k))
    decreases |ladder.bands| + 1 - k
  {
    if k <= |ladder.bands| {
      var bands := ladder.bands;
      var m := Members(bands, scores, k);
      var tail := SummarizeFrom(ladder, scores, k + 1);
      SummarizeFromOrdered(ladder, scores, k + 1);
      if m != [] {
        var e := StatsOf(LabelAt(ladder, k), m);
        if k < |bands| {
          GroupBounds(bands, scores, k);
          SummarizeFromBelow(ladder, scores, k + 1);
        }
        PrependRange(e, tail);
        assert SummarizeFrom(ladder, scores, k) == [e] + tail;
      }
    }
  }

  /** The grouped rows come out ordered by their minimum, strictly
      descending, as `ORDER BY min DESC` requires. */
  lemma SummarizeOrdered<L>(ladder: Ladder<L>, scores: seq<int>)
    requires Descending(ladder.bands)
    ensures forall i, j :: 0 <= i < j < |Summarize(ladder, scores)| ==>
      Summarize(ladder, scores)[i].minScore > Summarize(ladder, scores)[j].minScore
  {
    var r := Summarize(ladder, scores);
    SummarizeFromOrdered(ladder, scores, 0);
    forall i, j | 0 <= i < j < |r| ensures r[i].minScore > r[j].minScore {
      SummarizeFromStats(ladder, scores, 0, r[j]);
    }
  }

  /** Each grouped row is a non-empty group whose average lies between its
      minimum and maximum. */
  lemma SummarizeStats<L>(ladder: Ladder<L>, scores: seq<int>)
    ensures forall e :: e in Summarize(ladder, scores) ==>
      e.count > 0 && e.minScore as real <= e.Average() <= e.maxScore as real
  {
    forall e | e in Summarize(ladder, scores)
      ensures e.count > 0 && e.minScore as real <= e.Average() <= e.maxScore as real
    {
      SummarizeFromStats(ladder, scores, 0, e);
      MeanBetween(e.count, e.minScore, e.maxScore, e.total);
    }
  }

  /** Each grouped row is the statistics of some non-empty group, so its
      sum lies between count × min and count × max. */
  lemma {:induction false} SummarizeFromStats<L>(ladder: Ladder<L>, scores: seq<int>, k: nat, e: CategoryStats<L>)
    requires e in SummarizeFrom(ladder, scores, k)
    ensures e.count > 0 && e.minScore <= e.maxScore
    ensures e.count * e.minScore <= e.total <= e.count * e.maxScore
    decreases |ladder.bands| + 1 - k
  {
    var m := Members(ladder.bands, scores, k);
    var tail := SummarizeFrom(ladder, scores, k + 1);
    if m != [] && e == StatsOf(LabelAt(ladder, k), m) {
      SumBetweenMinAndMax(m);
    } else {
      assert e in tail;
      SummarizeFromStats(ladder, scores, k + 1, e);
    }
  }

  // ---------------------------------------------------------------------
  // Percentages

  /** `(count / total) * 100`. */
  function Percent(count: nat, total: nat): real
    requires total > 0
  {
    (count as real / total as real) * 100.0
  }

  function PercentagesOf<L>(stats: seq<CategoryStats<L>>, total: nat): seq<real>
    requires total > 0 || stats == []
  {
    if stats == [] then [] else [Percent(stats[0].count, total)] + PercentagesOf(stats[1..], total)
  }

  function SumReal(s: seq<real>): real
  {
    if s == [] then 0.0 else s[0] + SumReal(s[1..])
  }

  /** The percentages add up to the counts' share of the total. */
  lemma {:induction false} PercentagesSum<L>(stats: seq<CategoryStats<L>>, total: nat)
    requires total > 0
    ensures SumReal(PercentagesOf(stats, total)) == CountSum(stats) as real * 100.0 / total as real
  {
    if stats != [] {
      PercentagesSum(stats[1..], total);
      var t := total as real;
      var c := stats[0].count as real;
      var rest := CountSum(stats[1..]) as real;
      assert (c / t) * 100.0 + rest * 100.0 / t == (c + rest) * 100.0 / t;
    }
  }

  /** The percentage column of the grade distribution: one value per grouped
      row, or None where the division by a zero total would raise. */
  method Percentages<L>(stats: seq<CategoryStats<L>>, total: nat) returns (r: Option<seq<real>>)
    ensures r.None? <==> total == 0 && stats != []
    ensures r.Some? ==> r.value == PercentagesOf(stats, total)
    ensures r.Some? ==> |r.value| == |stats|
    ensures r.Some? ==> forall i :: 0 <= i < |stats| ==> r.value[i] == Percent(stats[i].count, total)
  {
    var ps: seq<real> := [];
    var i := 0;
    while i < |stats|
      invariant 0 <= i <= |stats|
      invariant total > 0 || i == 0
      invariant total > 0 ==> ps + PercentagesOf(stats[i..], total) == PercentagesOf(stats, total)
      invariant |ps| == i && forall j :: 0 <= j < i ==> ps[j] == Percent(stats[j].count, total)
    {
      if total == 0 {
        return None;
      }
      assert stats[i..] == [stats[i]] + stats[i + 1..];
      ps := ps + [Percent(stats[i].count, total)];
      i := i + 1;
    }
    r := Some(ps);
  }

  /** Grouped rows all have a positive count, so rows whose counts sum to zero are none. */
  lemma EmptyWhenNoCounts<L>(stats: seq<CategoryStats<L>>)
    requires forall e :: e in stats ==> e.count > 0
    requires CountSum(stats) == 0
    ensures stats == []
  {
    if stats != [] {
      assert stats[0] in stats;
      CountSumNonNegative(stats[1..]);
    }
  }

  lemma {:induction false} CountSumNonNegative<L>(stats: seq<CategoryStats<L>>)
    ensures CountSum(stats) >= 0
  {
    if stats != [] {
      CountSumNonNegative(stats[1..]);
    }
  }

  /** The grouped query and its percentage column over one set of scores:
      the counts add up to the number of scores, so the total is zero only
      when there are no rows, the division never fails, and the percentages
      add up to 100 whenever there is a score. */
  method Distribution<L>(ladder: Ladder<L>, scores: seq<int>)
    returns (distribution: seq<CategoryStats<L>>, percentages: seq<real>)
    requires Descending(ladder.bands)
    ensures distribution == Summarize(ladder, scores)
    ensures CountSum(distribution) == |scores|
    ensures forall i, j :: 0 <= i < j < |distribution| ==> distribution[i].minScore > distribution[j].minScore
    ensures |percentages| == |distribution|
    ensures |scores| == 0 ==> distribution == [] && percentages == []
    ensures |scores| > 0 ==> forall i :: 0 <= i < |distribution| ==>
      percentages[i] == Percent(distribution[i].count, |scores|)
    ensures |scores| > 0 ==> SumReal(percentages) == 100.0
  {
    distribution := Summarize(ladder, scores);
    SummarizeCounts(ladder, scores);
    SummarizeOrdered(ladder, scores);
    var total := |scores|;
    if total == 0 {
      SummarizeStats(ladder, scores);
      EmptyWhenNoCounts(distribution);
    }
    var r := Percentages(distribution, total);
    percentages := r.value;
    if total > 0 {
      PercentagesSum(distribution, total);
      assert total as real * 100.0 / total as real == 100.0;
    }
  }
}
