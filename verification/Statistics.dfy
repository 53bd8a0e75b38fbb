/**
 The distribution statistics of crates/execution/src/benchmark.rs: `percentile`,
 `compute_distribution_stats`. Samples are real numbers, so rounding and not-a-number are not
 modelled; the standard deviation is left out.
 */
module Statistics {
  import opened Wire

  predicate Sorted(s: seq<real>) {
    forall i, j :: 0 <= i < j < |s| ==> s[i] <= s[j]
  }

  function Insert(s: seq<real>, x: real): (r: seq<real>)
    ensures |r| == |s| + 1
  {
    if s == [] || s[|s| - 1] <= x then s + [x]
    else Insert(s[..|s| - 1], x) + [s[|s| - 1]]
  }

  /** `sort_by(total_cmp)`: the samples in ascending order. */
  function Sort(s: seq<real>): (r: seq<real>)
    ensures |r| == |s|
  {
    if s == [] then [] else Insert(Sort(s[..|s| - 1]), s[|s| - 1])
  }

  lemma {:induction false} InsertBounded(s: seq<real>, x: real, m: real)
    requires x <= m && forall i :: 0 <= i < |s| ==> s[i] <= m
    ensures forall i :: 0 <= i < |Insert(s, x)| ==> Insert(s, x)[i] <= m
    decreases |s|
  {
    if s != [] {
      InsertBounded(s[..|s| - 1], x, m);
    }
  }

  lemma {:induction false} InsertSorted(s: seq<real>, x: real)
    requires Sorted(s)
    ensures Sorted(Insert(s, x))
    decreases |s|
  {
    if s != [] && s[|s| - 1] > x {
      InsertSorted(s[..|s| - 1], x);
      InsertBounded(s[..|s| - 1], x, s[|s| - 1]);
    }
  }

  lemma {:induction false} InsertAdds(s: seq<real>, x: real)
    ensures multiset(Insert(s, x)) == multiset(s) + multiset{x}
    decreases |s|
  {
    if s != [] && s[|s| - 1] > x {
      InsertAdds(s[..|s| - 1], x);
      assert s == s[..|s| - 1] + [s[|s| - 1]];
    }
  }

  lemma {:induction false} SortSorts(s: seq<real>)
    ensures Sorted(Sort(s)) && multiset(Sort(s)) == multiset(s)
    decreases |s|
  {
    hide Insert;
    if s != [] {
      var front := s[..|s| - 1];
      SortSorts(front);
      InsertSorted(Sort(front), s[|s| - 1]);
      InsertAdds(Sort(front), s[|s| - 1]);
      assert s == front + [s[|s| - 1]];
    }
  }

  /** `f64::ceil`. */
  function Ceil(x: real): (n: int)
    ensures n as real >= x && n as real < x + 1.0
  {
    -((-x).Floor)
  }

  /** The index `percentile` looks at. */
  function RankIndex(n: nat, p: real): (i: nat)
    requires n > 0
    ensures i < n
  {
    var ceil := Ceil(Share(p, n));
    var rank := if ceil < 0 then 0 else ceil;
    var below := if rank == 0 then 0 else rank - 1;
    if below <= n - 1 then below else n - 1
  }

  function Percentile(sorted: seq<real>, p: real): (v: real) {
    if sorted == [] then 0.0 else sorted[RankIndex(|sorted|, p)]
  }

  function CountLess(s: seq<real>, v: real): (n: nat)
    ensures n <= |s|
  {
    if s == [] then 0 else CountLess(s[..|s| - 1], v) + if s[|s| - 1] < v then 1 else 0
  }

  function CountAtMost(s: seq<real>, v: real): (n: nat)
    ensures n <= |s|
  {
    if s == [] then 0 else CountAtMost(s[..|s| - 1], v) + if s[|s| - 1] <= v then 1 else 0
  }

  // ---------------------------------------------------------------------
  // Counting does not depend on the order
  // ---------------------------------------------------------------------

  lemma {:induction false} CountsOfInsert(s: seq<real>, x: real, v: real)
    ensures CountLess(Insert(s, x), v) == CountLess(s, v) + if x < v then 1 else 0
    ensures CountAtMost(Insert(s, x), v) == CountAtMost(s, v) + if x <= v then 1 else 0
    decreases |s|
  {
    if s == [] || s[|s| - 1] <= x {
      assert (s + [x])[..|s|] == s;
    } else {
      CountsOfInsert(s[..|s| - 1], x, v);
      var front := Insert(s[..|s| - 1], x);
      assert (front + [s[|s| - 1]])[..|front|] == front;
    }
  }

  lemma {:induction false} CountsOfSort(s: seq<real>, v: real)
    ensures CountLess(Sort(s), v) == CountLess(s, v) && CountAtMost(Sort(s), v) == CountAtMost(s, v)
    decreases |s|
  {
    hide Insert;
    if s != [] {
      CountsOfSort(s[..|s| - 1], v);
      CountsOfInsert(Sort(s[..|s| - 1]), s[|s| - 1], v);
    }
  }

  /**
   In a sorted list, at most the places before `i` hold less than its value, and at least those up to `i` at most it.
   */
  lemma {:induction false} CountsInSorted(s: seq<real>, i: nat)
    requires Sorted(s) && i < |s|
    ensures CountLess(s, s[i]) <= i && CountAtMost(s, s[i]) >= i + 1
    decreases |s|
  {
    var front := s[..|s| - 1];
    if i < |s| - 1 {
      CountsInSorted(front, i);
      assert front[i] == s[i];
    } else {
      AllAtMost(front, s[i]);
    }
  }

  lemma {:induction false} AllAtMost(s: seq<real>, v: real)
    requires forall i :: 0 <= i < |s| ==> s[i] <= v
    ensures CountAtMost(s, v) == |s|
    decreases |s|
  {
    if s != [] {
      AllAtMost(s[..|s| - 1], v);
    }
  }

  lemma {:induction false} CountsOrdered(s: seq<real>, a: real, b: real)
    requires a < b
    ensures CountAtMost(s, a) <= CountLess(s, b)
    decreases |s|
  {
    if s != [] {
      CountsOrdered(s[..|s| - 1], a, b);
    }
  }

  // ---------------------------------------------------------------------
  // Nearest rank
  // ---------------------------------------------------------------------

  /** `v` is a sample with at least `p` percent of the samples at most it, and fewer than `p` percent below it. */
  ghost predicate NearestRank(samples: seq<real>, p: real, v: real) {
    v in samples &&
    CountAtMost(samples, v) as real * 100.0 >= p * |samples| as real > CountLess(samples, v) as real * 100.0
  }

  /** `p` percent of `n`. */
  function Share(p: real, n: nat): (x: real) {
    p / 100.0 * n as real
  }

  lemma ShareIs(p: real, n: nat)
    ensures Share(p, n) * 100.0 == p * n as real
  {
    assert p / 100.0 * n as real * 100.0 == p / 100.0 * 100.0 * n as real;
  }

  /** The same in shares: `a` and `b` are the counts of the samples at most the value and of those below it. */
  lemma InShares(p: real, n: nat, a: nat, b: nat)
    ensures a as real * 100.0 >= p * n as real > b as real * 100.0 <==> a as real >= Share(p, n) > b as real
  {
    hide Share;
    ShareIs(p, n);
  }

  lemma RankBounds(n: nat, p: real)
    requires n > 0 && 0.0 < p <= 100.0
    ensures (RankIndex(n, p) + 1) as real >= Share(p, n) > RankIndex(n, p) as real
  {
    ShareBounds(p, n);
    hide Share;
    var c := Ceil(Share(p, n));
    assert 1 <= c <= n;
  }

  lemma ShareBounds(p: real, n: nat)
    requires n > 0
    ensures 0.0 < p <= 100.0 ==> 0.0 < Share(p, n) <= n as real
    ensures p <= 0.0 ==> Share(p, n) <= 0.0
    ensures p > 100.0 ==> Share(p, n) > n as real
  {
    var f, x := p / 100.0, n as real;
    if p <= 0.0 {
      AtMost(f, 0.0, x);
    } else if p <= 100.0 {
      AtMost(f, 1.0, x);
      Grows(0.0, f, x);
    } else {
      Grows(1.0, f, x);
    }
  }

  lemma AtMost(a: real, b: real, n: real)
    requires a <= b && n > 0.0
    ensures a * n <= b * n
  {
  }

  lemma Grows(a: real, b: real, n: real)
    requires a < b && n > 0.0
    ensures a * n < b * n
  {
  }

  lemma InMultiset(s: seq<real>, t: seq<real>, v: real)
    requires multiset(s) == multiset(t) && v in s
    ensures v in t
  {
    assert v in multiset(s);
  }

  lemma PercentileIsNearestRank(samples: seq<real>, p: real)
    requires samples != [] && 0.0 < p <= 100.0
    ensures NearestRank(samples, p, Percentile(Sort(samples), p))
  {
    hide RankIndex, CountLess, CountAtMost, Sort, Sorted, Share;
    var sorted := Sort(samples);
    var i := RankIndex(|samples|, p);
    var v := sorted[i];
    SortSorts(samples);
    RankBounds(|samples|, p);
    CountsInSorted(sorted, i);
    CountsOfSort(samples, v);
    InMultiset(sorted, samples, v);
    InShares(p, |samples|, CountAtMost(samples, v), CountLess(samples, v));
  }

  /** Outside that range no value is of nearest rank, though the program still returns one. */
  lemma NearestRankIffInRange(samples: seq<real>, p: real)
    requires samples != []
    ensures NearestRank(samples, p, Percentile(Sort(samples), p)) <==> 0.0 < p <= 100.0
  {
    hide Percentile, Sort, Share, CountAtMost, CountLess;
    ShareBounds(p, |samples|);
    var v := Percentile(Sort(samples), p);
    InShares(p, |samples|, CountAtMost(samples, v), CountLess(samples, v));
    if 0.0 < p <= 100.0 {
      PercentileIsNearestRank(samples, p);
    }
  }

  lemma NearestRankUnique(samples: seq<real>, p: real, a: real, b: real)
    requires NearestRank(samples, p, a) && NearestRank(samples, p, b)
    ensures a == b
  {
    hide Share;
    if a < b {
      CountsOrdered(samples, a, b);
    } else if b < a {
      CountsOrdered(samples, b, a);
    }
  }

  /** What the program returns outside the range: the least sample below it, the largest above it, 0 without samples. */
  lemma PercentileOutside(samples: seq<real>, p: real)
    ensures samples == [] ==> Percentile(Sort(samples), p) == 0.0
    ensures samples != [] && p <= 0.0 ==>
      Percentile(Sort(samples), p) in samples && forall x :: x in samples ==> Percentile(Sort(samples), p) <= x
    ensures samples != [] && p > 100.0 ==>
      Percentile(Sort(samples), p) in samples && forall x :: x in samples ==> x <= Percentile(Sort(samples), p)
  {
    hide Sort, Share;
    if samples != [] {
      var sorted := Sort(samples);
      SortSorts(samples);
      ShareBounds(p, |samples|);
      SortedBounds(sorted);
      assert p <= 0.0 ==> RankIndex(|samples|, p) == 0;
      assert p > 100.0 ==> RankIndex(|samples|, p) == |samples| - 1;
      InMultiset(sorted, samples, sorted[RankIndex(|samples|, p)]);
      forall x | x in samples
        ensures x in sorted
      {
        InMultiset(samples, sorted, x);
      }
    }
  }

  /** The percentile is the one value of nearest rank, so it does not depend on the order of the samples. */
  lemma PercentileExact(samples: seq<real>, p: real, v: real)
    requires samples != [] && 0.0 < p <= 100.0
    ensures Percentile(Sort(samples), p) == v <==> NearestRank(samples, p, v)
  {
    hide NearestRank, Percentile;
    PercentileIsNearestRank(samples, p);
    if NearestRank(samples, p, v) {
      NearestRankUnique(samples, p, v, Percentile(Sort(samples), p));
    }
  }

  // ---------------------------------------------------------------------
  // The summary
  // ---------------------------------------------------------------------

  function Total(s: seq<real>): (t: real) {
    if s == [] then 0.0 else Total(s[..|s| - 1]) + s[|s| - 1]
  }

  /** `mean` is None where the program divides zero by zero. */
  datatype Stats = Stats(mean: Option<real>, p50: real, p95: real, min: real, max: real)

  function ComputeStats(samples: seq<real>): (r: Stats) {
    var sorted := Sort(samples);
    if sorted == [] then Stats(None, 0.0, 0.0, 0.0, 0.0)
    else Stats(Some(Total(sorted) / |sorted| as real), Percentile(sorted, 50.0), Percentile(sorted, 95.0),
               sorted[0], sorted[|sorted| - 1])
  }

  lemma {:induction false} TotalBounds(s: seq<real>, low: real, high: real)
    requires forall i :: 0 <= i < |s| ==> low <= s[i] <= high
    ensures low * |s| as real <= Total(s) <= high * |s| as real
    decreases |s|
  {
    if s != [] {
      TotalBounds(s[..|s| - 1], low, high);
      assert low * (|s| - 1) as real + low == low * |s| as real;
      assert high * (|s| - 1) as real + high == high * |s| as real;
    }
  }

  lemma MeanBounds(total: real, n: real, low: real, high: real)
    requires n > 0.0 && low * n <= total <= high * n
    ensures low <= total / n <= high
  {
    var q := total / n;
    assert q * n == total;
    Cancel(low, q, n);
    Cancel(q, high, n);
  }

  lemma Cancel(a: real, b: real, n: real)
    requires n > 0.0 && a * n <= b * n
    ensures a <= b
  {
  }

  lemma RankIndexMonotone(n: nat)
    requires n > 0
    ensures RankIndex(n, 50.0) <= RankIndex(n, 95.0)
  {
    assert Share(50.0, n) <= Share(95.0, n);
    hide Share;
  }

  /** The summary of any samples is ordered, and its ends are samples that bound all of them. */
  lemma StatsOrdered(samples: seq<real>)
    requires samples != []
    ensures var r := ComputeStats(samples);
            && r.mean.Some? && r.min <= r.mean.value <= r.max
            && r.min <= r.p50 <= r.p95 <= r.max
            && r.min in samples && r.max in samples
            && forall x :: x in samples ==> r.min <= x <= r.max
  {
    hide RankIndex, Sort, Total;
    var sorted := Sort(samples);
    var n := |sorted|;
    SortSorts(samples);
    SortedBounds(sorted);
    var low, high := sorted[0], sorted[n - 1];
    TotalBounds(sorted, low, high);
    MeanBounds(Total(sorted), n as real, low, high);
    RankIndexMonotone(n);
    InMultiset(sorted, samples, low);
    InMultiset(sorted, samples, high);
    hide Sorted;
    forall x | x in samples
      ensures low <= x <= high
    {
      InMultiset(samples, sorted, x);
    }
  }

  /** Without samples there is no mean, and the other numbers are 0. */
  lemma StatsOfNothing(samples: seq<real>)
    requires |samples| == 0
    ensures ComputeStats(samples) == Stats(None, 0.0, 0.0, 0.0, 0.0)
  {
  }

  lemma {:induction false} TotalOfInsert(s: seq<real>, x: real)
    ensures Total(Insert(s, x)) == Total(s) + x
    decreases |s|
  {
    if s == [] || s[|s| - 1] <= x {
      assert (s + [x])[..|s|] == s;
    } else {
      TotalOfInsert(s[..|s| - 1], x);
      var front := Insert(s[..|s| - 1], x);
      assert (front + [s[|s| - 1]])[..|front|] == front;
    }
  }

  lemma {:induction false} TotalOfSort(s: seq<real>)
    ensures Total(Sort(s)) == Total(s)
    decreases |s|
  {
    hide Insert;
    if s != [] {
      TotalOfSort(s[..|s| - 1]);
      TotalOfInsert(Sort(s[..|s| - 1]), s[|s| - 1]);
    }
  }

  lemma Divides(total: real, n: real)
    requires n > 0.0
    ensures total / n * n == total
  {
  }

  /** Each number of the summary is what it is called: the mean, and the values of rank 50 and 95. */
  lemma StatsExact(samples: seq<real>, a: real, b: real)
    requires samples != []
    ensures var r := ComputeStats(samples);
            && r.mean.Some? && r.mean.value * |samples| as real == Total(samples)
            && (r.p50 == a <==> NearestRank(samples, 50.0, a))
            && (r.p95 == b <==> NearestRank(samples, 95.0, b))
  {
    hide Sort, Total, Percentile, NearestRank;
    TotalOfSort(samples);
    Divides(Total(samples), |samples| as real);
    PercentileExact(samples, 50.0, a);
    PercentileExact(samples, 95.0, b);
  }

  lemma SortedBounds(s: seq<real>)
    requires Sorted(s) && s != []
    ensures forall i :: 0 <= i < |s| ==> s[0] <= s[i] <= s[|s| - 1]
  {
  }
}
