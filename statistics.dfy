/**
 * The summary statistics that the three `get_stats_*` reducers compute with
 * numpy: `round(average)`, `round(median)` and `round(percentile(.., 90))` with
 * numpy's default linear interpolation. numpy works in floating point; here
 * the arithmetic is exact (`real`), and `round` rounds half to even as
 * `numpy.round` does.
 */
module Statistics {
  import opened Optional
  import opened Numbers

  /** The three summary values, in whole seconds. */
  datatype Stats = Stats(avg: int, med: int, p90: int)

  predicate Sorted(s: seq<int>)
  {
    forall i, j :: 0 <= i < j < |s| ==> s[i] <= s[j]
  }

  function Sum(s: seq<int>): int
  {
    if s == [] then 0 else Sum(s[..|s| - 1]) + s[|s| - 1]
  }

  /** The smallest sample. */
  function Minimum(s: seq<int>): (m: int)
    requires |s| > 0
    ensures m in s && forall x :: x in s ==> m <= x
  {
    if |s| == 1 then s[0]
    else
      assert s == s[..|s| - 1] + [s[|s| - 1]];
      Min(Minimum(s[..|s| - 1]), s[|s| - 1])
  }

  /** The largest sample. */
  function Maximum(s: seq<int>): (m: int)
    requires |s| > 0
    ensures m in s && forall x :: x in s ==> x <= m
  {
    if |s| == 1 then s[0]
    else
      assert s == s[..|s| - 1] + [s[|s| - 1]];
      Max(Maximum(s[..|s| - 1]), s[|s| - 1])
  }

  // ---------------------------------------------------------------------
  // Sorting (what numpy does internally before taking a median or percentile)

  function Insert(x: int, s: seq<int>): (r: seq<int>)
    requires Sorted(s)
    ensures Sorted(r) && multiset(r) == multiset(s) + multiset{x}
    ensures |r| > 0 && r[0] == (if s == [] then x else Min(x, s[0]))
  {
    if s == [] || x <= s[0] then
      SortedCons(x, s);
      [x] + s
    else
      assert s == [s[0]] + s[1..];
      var t := Insert(x, s[1..]);
      SortedCons(s[0], t);
      [s[0]] + t
  }

  lemma SortedCons(a: int, t: seq<int>)
    requires Sorted(t) && (t != [] ==> a <= t[0])
    ensures Sorted([a] + t)
  {
    var r := [a] + t;
    forall i, j | 0 <= i < j < |r| ensures r[i] <= r[j] {
      if i == 0 && j > 1 {
        assert t[0] <= t[j - 1];
      }
    }
  }

  /** Insertion sort: a sorted permutation of the samples. */
  function Sort(s: seq<int>): (r: seq<int>)
    ensures Sorted(r) && multiset(r) == multiset(s)
  {
    if s == [] then []
    else
      assert s == s[..|s| - 1] + [s[|s| - 1]];
      Insert(s[|s| - 1], Sort(s[..|s| - 1]))
  }

  // ---------------------------------------------------------------------
  // The numpy primitives, exactly

  /** `numpy.average` of a non-empty sample. */
  function Mean(s: seq<int>): real
    requires |s| > 0
  {
    Sum(s) as real / |s| as real
  }

  /** `numpy.median` of a sorted sample: the middle value, or the mean of the two middle values. */
  function Median(s: seq<int>): real
    requires |s| > 0
  {
    var m := |s| / 2;
    if |s| % 2 == 1 then s[m] as real else (s[m - 1] + s[m]) as real / 2.0
  }

  /**
   * Linear interpolation in a sample at the rank `k / 100`: `k / 100` (integer
   * part) indexes `lo`, and the value moves the fraction `(k % 100) / 100` of
   * the way from `s[lo]` to `s[lo + 1]`.
   */
  function Interpolate(s: seq<int>, k: int): real
    requires |s| > 0 && 0 <= k <= 100 * (|s| - 1)
  {
    var lo, f := k / 100, k % 100;
    if f == 0 then s[lo] as real
    else s[lo] as real + (f as real / 100.0) * (s[lo + 1] - s[lo]) as real
  }

  /**
   * `numpy.percentile(s, p)` of a sorted sample with numpy's default linear
   * method: the interpolated value at the rank `p/100 * (n-1)`.
   */
  function Percentile(s: seq<int>, p: int): real
    requires |s| > 0 && 0 <= p <= 100
  {
    PercentileRankBound(|s|, p);
    Interpolate(s, p * (|s| - 1))
  }

  lemma PercentileRankBound(n: int, p: int)
    requires n > 0 && 0 <= p <= 100
    ensures 0 <= p * (n - 1) <= 100 * (n - 1)
  {
  }

  /** `numpy.round`: to the nearest integer, ties to the even one. */
  function RoundHalfEven(x: real): (r: int)
    ensures -0.5 <= x - r as real <= 0.5
    ensures (x - r as real == 0.5 || x - r as real == -0.5) ==> r % 2 == 0
  {
    var f := x.Floor;
    var d := x - f as real;
    if d < 0.5 then f
    else if d > 0.5 then f + 1
    else if f % 2 == 0 then f
    else f + 1
  }

  /** The summary of a non-empty list of samples, as each reducer builds it. */
  function Summarize(samples: seq<int>): (r: Stats)
    requires |samples| > 0
    ensures Minimum(samples) <= r.avg <= Maximum(samples)
    ensures Minimum(samples) <= r.med <= r.p90 <= Maximum(samples)
  {
    var s := Sort(samples);
    MeanBetweenExtremes(samples);
    MedianBetweenExtremes(samples, s);
    PercentileBetweenExtremes(samples, s);
    MedianAtMostPercentile(s, 90);
    RoundBetween(Mean(samples), Minimum(samples), Maximum(samples));
    RoundBetween(Median(s), Minimum(samples), Maximum(samples));
    RoundBetween(Percentile(s, 90), Minimum(samples), Maximum(samples));
    RoundMonotone(Median(s), Percentile(s, 90));
    Stats(RoundHalfEven(Mean(samples)), RoundHalfEven(Median(s)), RoundHalfEven(Percentile(s, 90)))
  }

  // ---------------------------------------------------------------------
  // Lemmas

  /** The rounding of an integer is that integer. */
  lemma RoundInteger(n: int)
    ensures RoundHalfEven(n as real) == n
  {
  }

  /** Rounding is monotone. */
  lemma RoundMonotone(x: real, y: real)
    requires x <= y
    ensures RoundHalfEven(x) <= RoundHalfEven(y)
  {
  }

  lemma RoundBetween(x: real, lo: int, hi: int)
    requires lo as real <= x <= hi as real
    ensures lo <= RoundHalfEven(x) <= hi
  {
    RoundMonotone(lo as real, x);
    RoundMonotone(x, hi as real);
  }

  lemma {:induction false} SumBounds(s: seq<int>, lo: int, hi: int)
    requires forall x :: x in s ==> lo <= x <= hi
    ensures |s| * lo <= Sum(s) <= |s| * hi
  {
    if s != [] {
      var t := s[..|s| - 1];
      assert forall x :: x in t ==> x in s;
      SumBounds(t, lo, hi);
      assert s[|s| - 1] in s;
      assert |s| * lo == |t| * lo + lo && |s| * hi == |t| * hi + hi;
    }
  }

  lemma MeanBetweenExtremes(s: seq<int>)
    requires |s| > 0
    ensures Minimum(s) as real <= Mean(s) <= Maximum(s) as real
  {
    SumBounds(s, Minimum(s), Maximum(s));
    DivideBounds(Sum(s), |s|, Minimum(s), Maximum(s));
  }

  lemma DivideBounds(sum: int, n: int, lo: int, hi: int)
    requires n > 0 && n * lo <= sum <= n * hi
    ensures lo as real <= sum as real / n as real <= hi as real
  {
    assert (n * lo) as real == n as real * lo as real;
    assert (n * hi) as real == n as real * hi as real;
  }

  /** Every element of a sorted permutation of the samples is a sample. */
  lemma SortedElementsAreSamples(samples: seq<int>, s: seq<int>, i: int)
    requires |samples| > 0 && multiset(s) == multiset(samples) && 0 <= i < |s|
    ensures Minimum(samples) <= s[i] <= Maximum(samples)
  {
    assert s[i] in multiset(s);
    assert s[i] in samples;
  }

  /** An interpolated value lies between the two samples it interpolates. */
  lemma InterpolateBetweenNeighbours(s: seq<int>, k: int)
    requires Sorted(s) && |s| > 0 && 0 <= k <= 100 * (|s| - 1)
    ensures s[k / 100] as real <= Interpolate(s, k)
    ensures k % 100 == 0 ==> Interpolate(s, k) == s[k / 100] as real
    ensures k % 100 != 0 ==> k / 100 + 1 < |s| && Interpolate(s, k) <= s[k / 100 + 1] as real
  {
    var lo, f := k / 100, k % 100;
    if f != 0 {
      var a, b := s[lo] as real, s[lo + 1] as real;
      ScaleFraction(f as real / 100.0, b - a);
    }
  }

  lemma ScaleFraction(t: real, d: real)
    requires 0.0 <= t <= 1.0 && d >= 0.0
    ensures 0.0 <= t * d <= d
  {
  }

  lemma MedianBetweenExtremes(samples: seq<int>, s: seq<int>)
    requires |samples| > 0 && multiset(s) == multiset(samples)
    ensures |s| > 0 && Minimum(samples) as real <= Median(s) <= Maximum(samples) as real
  {
    assert |s| == |samples| by { assert |multiset(s)| == |multiset(samples)|; }
    var n, lo, hi := |s|, Minimum(samples), Maximum(samples);
    SortedElementsAreSamples(samples, s, n / 2);
    if n % 2 == 0 {
      SortedElementsAreSamples(samples, s, n / 2 - 1);
      MidpointBetween(s[n / 2 - 1], s[n / 2], lo, hi);
    }
  }

  lemma PercentileBetweenExtremes(samples: seq<int>, s: seq<int>)
    requires |samples| > 0 && multiset(s) == multiset(samples) && Sorted(s)
    ensures |s| > 0 && Minimum(samples) as real <= Percentile(s, 90) <= Maximum(samples) as real
  {
    assert |s| == |samples| by { assert |multiset(s)| == |multiset(samples)|; }
    var n := |s|;
    PercentileRankBound(n, 90);
    var k := 90 * (n - 1);
    InterpolateBetweenNeighbours(s, k);
    SortedElementsAreSamples(samples, s, k / 100);
    if k % 100 != 0 {
      SortedElementsAreSamples(samples, s, k / 100 + 1);
    }
  }

  lemma MidpointBetween(a: int, b: int, lo: int, hi: int)
    requires lo <= a <= hi && lo <= b <= hi
    ensures lo as real <= (a + b) as real / 2.0 <= hi as real
  {
  }

  /** numpy's median is the 50th percentile. */
  lemma MedianIsFiftiethPercentile(s: seq<int>)
    requires Sorted(s) && |s| > 0
    ensures Median(s) == Percentile(s, 50)
  {
    var n := |s|;
    if n % 2 == 1 {
      assert 50 * (n - 1) == 100 * ((n - 1) / 2);
    } else {
      assert 50 * (n - 1) == 100 * (n / 2 - 1) + 50;
    }
  }

  /** On a sorted sample interpolation at a higher rank never gives less. */
  lemma InterpolateMonotone(s: seq<int>, k: int, j: int)
    requires Sorted(s) && |s| > 0 && 0 <= k <= j <= 100 * (|s| - 1)
    ensures Interpolate(s, k) <= Interpolate(s, j)
  {
    InterpolateBetweenNeighbours(s, k);
    InterpolateBetweenNeighbours(s, j);
    var lk, lj := k / 100, j / 100;
    if lk == lj {
      if k % 100 != 0 {
        var a, b := s[lk] as real, s[lk + 1] as real;
        ScaleMonotone((k % 100) as real / 100.0, (j % 100) as real / 100.0, b - a);
      }
    } else if k % 100 != 0 {
      assert s[lk + 1] <= s[lj];
    } else {
      assert s[lk] <= s[lj];
    }
  }

  lemma ScaleMonotone(t: real, u: real, d: real)
    requires t <= u && d >= 0.0
    ensures t * d <= u * d
  {
  }

  /** On a sorted sample a higher percentile is never smaller. */
  lemma PercentileMonotone(s: seq<int>, p: int, q: int)
    requires Sorted(s) && |s| > 0 && 0 <= p <= q <= 100
    ensures Percentile(s, p) <= Percentile(s, q)
  {
    PercentileRankBound(|s|, p);
    PercentileRankBound(|s|, q);
    MultiplyMonotone(p, q, |s| - 1);
    InterpolateMonotone(s, p * (|s| - 1), q * (|s| - 1));
  }

  lemma MultiplyMonotone(p: int, q: int, m: int)
    requires 0 <= p <= q && m >= 0
    ensures p * m <= q * m
  {
  }

  lemma MedianAtMostPercentile(s: seq<int>, p: int)
    requires Sorted(s) && |s| > 0 && 50 <= p <= 100
    ensures Median(s) <= Percentile(s, p)
  {
    MedianIsFiftiethPercentile(s);
    PercentileMonotone(s, 50, p);
  }

  // ---------------------------------------------------------------------
  // From per-item samples to statistics

  /**
   * What a reducer reports: no sample at all, the statistics, or the exception
   * numpy's NaN results cause (`timedelta(seconds=nan)` raises) when every
   * measured sample was zero and so none was kept.
   */
  datatype StatsReport = NoData | Computed(stats: Stats) | EmptySampleError

  /** The measured values among per-item samples, in list order (`x is not None`). */
  function Measured(samples: seq<Option<int>>): (r: seq<int>)
    ensures |r| <= |samples|
    ensures forall v :: v in r <==> Some(v) in samples
  {
    if samples == [] then []
    else
      var last := samples[|samples| - 1];
      assert samples == samples[..|samples| - 1] + [last];
      Measured(samples[..|samples| - 1]) + (if last.Some? then [last.value] else [])
  }

  /** The values a reducer appends: the truthy (nonzero) durations, in order. */
  function NonZero(xs: seq<int>): (r: seq<int>)
    ensures |r| <= |xs|
    ensures forall v :: v in r <==> v in xs && v != 0
  {
    if xs == [] then []
    else
      var last := xs[|xs| - 1];
      assert xs == xs[..|xs| - 1] + [last];
      NonZero(xs[..|xs| - 1]) + (if last != 0 then [last] else [])
  }

  /** Appending one sample appends its value, if it has one. */
  lemma MeasuredSnoc(samples: seq<Option<int>>, x: Option<int>)
    ensures Measured(samples + [x]) == Measured(samples) + (if x.Some? then [x.value] else [])
  {
    assert (samples + [x])[..|samples|] == samples;
  }

  /** Appending one value appends it, if it is nonzero. */
  lemma NonZeroSnoc(xs: seq<int>, v: int)
    ensures NonZero(xs + [v]) == NonZero(xs) + (if v != 0 then [v] else [])
  {
    assert (xs + [v])[..|xs|] == xs;
  }

  /** Filtering distributes over concatenation. */
  lemma {:induction false} MeasuredAppend(a: seq<Option<int>>, b: seq<Option<int>>)
    ensures Measured(a + b) == Measured(a) + Measured(b)
    decreases |b|
  {
    if b == [] {
      assert a + b == a;
    } else {
      var b' := b[..|b| - 1];
      assert a + b == (a + b') + [b[|b| - 1]];
      assert b == b' + [b[|b| - 1]];
      MeasuredAppend(a, b');
      MeasuredSnoc(a + b', b[|b| - 1]);
      MeasuredSnoc(b', b[|b| - 1]);
    }
  }

  lemma {:induction false} NonZeroAppend(a: seq<int>, b: seq<int>)
    ensures NonZero(a + b) == NonZero(a) + NonZero(b)
    decreases |b|
  {
    if b == [] {
      assert a + b == a;
    } else {
      var b' := b[..|b| - 1];
      assert a + b == (a + b') + [b[|b| - 1]];
      assert b == b' + [b[|b| - 1]];
      NonZeroAppend(a, b');
      NonZeroSnoc(a + b', b[|b| - 1]);
      NonZeroSnoc(b', b[|b| - 1]);
    }
  }

  /** A missing entry, wherever it stands, is filtered out. */
  lemma MissingEntryFiltered(a: seq<Option<int>>, b: seq<Option<int>>)
    ensures Measured(a + [None] + b) == Measured(a + b)
  {
    MeasuredAppend(a + [None], b);
    MeasuredAppend(a, b);
    MeasuredSnoc(a, None);
  }

  /** A zero entry, wherever it stands, is never appended to the summarised values. */
  lemma ZeroEntryNotSummarised(a: seq<Option<int>>, b: seq<Option<int>>)
    ensures NonZero(Measured(a + [Some(0)] + b)) == NonZero(Measured(a + b))
  {
    MeasuredAppend(a + [Some(0)], b);
    MeasuredAppend(a, b);
    MeasuredSnoc(a, Some(0));
    NonZeroAppend(Measured(a) + [0], Measured(b));
    NonZeroAppend(Measured(a), Measured(b));
    NonZeroSnoc(Measured(a), 0);
  }

  /**
   * A missing entry changes neither rule's result; a zero entry does not change
   * the first-response rule's result either.
   */
  lemma MissingEntriesIgnored(a: seq<Option<int>>, b: seq<Option<int>>)
    ensures MeasuredStats(a + [None] + b) == MeasuredStats(a + b)
    ensures NonZeroStats(a + [None] + b) == NonZeroStats(a + b)
    ensures NonZeroStats(a + [Some(0)] + b) == NonZeroStats(a + b)
  {
    MissingEntryFiltered(a, b);
    ZeroEntryNotSummarised(a, b);
    MeasuredStatsDefinition(a + [None] + b);
    MeasuredStatsDefinition(a + b);
    NonZeroStatsDefinition(a + [None] + b);
    NonZeroStatsDefinition(a + [Some(0)] + b);
    NonZeroStatsDefinition(a + b);
  }

  lemma MeasuredStatsDefinition(samples: seq<Option<int>>)
    ensures MeasuredStats(samples) ==
              if Measured(samples) == [] then NoData
              else if NonZero(Measured(samples)) == [] then EmptySampleError
              else Computed(Summarize(NonZero(Measured(samples))))
  {
  }

  lemma NonZeroStatsDefinition(samples: seq<Option<int>>)
    ensures NonZeroStats(samples) ==
              if NonZero(Measured(samples)) == [] then None else Some(Summarize(NonZero(Measured(samples))))
  {
  }

  /** No measured value exactly when every sample is missing. */
  lemma MeasuredEmpty(samples: seq<Option<int>>)
    ensures Measured(samples) == [] <==> forall i :: 0 <= i < |samples| ==> samples[i].None?
  {
    if Measured(samples) != [] {
      var v := Measured(samples)[0];
      assert v in Measured(samples);
    }
    if exists i :: 0 <= i < |samples| && samples[i].Some? {
      var i :| 0 <= i < |samples| && samples[i].Some?;
      assert samples[i].value in Measured(samples);
    }
  }

  /** No nonzero measured value exactly when every sample is missing or zero. */
  lemma NonZeroEmpty(samples: seq<Option<int>>)
    ensures NonZero(Measured(samples)) == [] <==>
              forall i :: 0 <= i < |samples| ==> samples[i].None? || samples[i].value == 0
  {
    var xs := NonZero(Measured(samples));
    if xs != [] {
      var v := xs[0];
      assert v in xs;
      assert Some(v) in samples;
    }
    if exists i :: 0 <= i < |samples| && samples[i].Some? && samples[i].value != 0 {
      var i :| 0 <= i < |samples| && samples[i].Some? && samples[i].value != 0;
      assert samples[i].value in Measured(samples);
      assert samples[i].value in xs;
    }
  }

  /**
   * The first-response rule: a missing or zero duration counts as missing; the
   * result is absent exactly when no entry is a nonzero duration.
   */
  function NonZeroStats(samples: seq<Option<int>>): (r: Option<Stats>)
    ensures r.None? <==> forall i :: 0 <= i < |samples| ==> samples[i].None? || samples[i].value == 0
    ensures r.Some? ==> r.value == Summarize(NonZero(Measured(samples)))
  {
    NonZeroEmpty(samples);
    var xs := NonZero(Measured(samples));
    if xs == [] then None else Some(Summarize(xs))
  }

  /**
   * The time-to-close and time-to-answer rule: absent when no entry has a value;
   * a zero value counts as present but is not summarised, so when every present
   * value is zero the reducer fails.
   */
  function MeasuredStats(samples: seq<Option<int>>): (r: StatsReport)
    ensures r.NoData? <==> forall i :: 0 <= i < |samples| ==> samples[i].None?
    ensures r.EmptySampleError? <==>
              (exists i :: 0 <= i < |samples| && samples[i].Some?)
              && forall i :: 0 <= i < |samples| ==> samples[i].None? || samples[i].value == 0
    ensures r.Computed? ==> r.stats == Summarize(NonZero(Measured(samples)))
  {
    MeasuredEmpty(samples);
    NonZeroEmpty(samples);
    var present := Measured(samples);
    var xs := NonZero(present);
    if present == [] then NoData
    else if xs == [] then EmptySampleError
    else Computed(Summarize(xs))
  }

  // ---------------------------------------------------------------------
  // Order independence: the reducers see the samples in list order, but the
  // summaries depend only on which durations occur and how often.

  /** Two sorted arrangements of the same samples are the same list. */
  lemma {:induction false} SortedUnique(a: seq<int>, b: seq<int>)
    requires Sorted(a) && Sorted(b) && multiset(a) == multiset(b)
    ensures a == b
    decreases |a|
  {
    assert |a| == |multiset(a)| == |multiset(b)| == |b|;
    if a != [] {
      assert a[0] in multiset(b) && b[0] in multiset(a);
      assert a[0] in b && b[0] in a;
      assert a[0] == b[0];
      assert a == [a[0]] + a[1..] && b == [b[0]] + b[1..];
      assert multiset(a) == multiset{a[0]} + multiset(a[1..]);
      assert multiset(b) == multiset{b[0]} + multiset(b[1..]);
      forall v ensures multiset(a[1..])[v] == multiset(b[1..])[v] {
        assert multiset(a)[v] == multiset(b)[v];
      }
      assert multiset(a[1..]) == multiset(b[1..]);
      SortedUnique(a[1..], b[1..]);
    }
  }

  lemma {:induction false} SumCons(x: int, t: seq<int>)
    ensures Sum([x] + t) == x + Sum(t)
    decreases |t|
  {
    if t == [] {
      assert [x] + t == [x];
      assert [x][..0] == [];
    } else {
      var init := t[..|t| - 1];
      assert ([x] + t)[..|t|] == [x] + init;
      SumCons(x, init);
    }
  }

  lemma {:induction false} SumInsert(x: int, s: seq<int>)
    requires Sorted(s)
    ensures Sum(Insert(x, s)) == x + Sum(s)
    decreases |s|
  {
    if s == [] || x <= s[0] {
      SumCons(x, s);
    } else {
      assert s == [s[0]] + s[1..];
      SumInsert(x, s[1..]);
      SumCons(s[0], Insert(x, s[1..]));
      SumCons(s[0], s[1..]);
    }
  }

  /** Sorting keeps the total. */
  lemma {:induction false} SumSort(s: seq<int>)
    ensures Sum(Sort(s)) == Sum(s)
    decreases |s|
  {
    if s != [] {
      SumSort(s[..|s| - 1]);
      SumInsert(s[|s| - 1], Sort(s[..|s| - 1]));
    }
  }

  /** The summary of a list of samples does not depend on their order. */
  lemma SummarizeOrderIndependent(xs: seq<int>, ys: seq<int>)
    requires |xs| > 0 && multiset(xs) == multiset(ys)
    ensures Summarize(xs) == Summarize(ys)
  {
    assert |xs| == |multiset(xs)| == |multiset(ys)| == |ys|;
    SortedUnique(Sort(xs), Sort(ys));
    SumSort(xs);
    SumSort(ys);
    assert Mean(xs) == Mean(ys);
    SummarizeDefinition(xs);
    SummarizeDefinition(ys);
  }

  /** Each value occurs among the measured values as often as it occurs as a sample. */
  lemma {:induction false} MeasuredCounts(samples: seq<Option<int>>)
    ensures forall v :: multiset(Measured(samples))[v] == multiset(samples)[Some(v)]
    decreases |samples|
  {
    if samples != [] {
      var init, last := samples[..|samples| - 1], samples[|samples| - 1];
      assert samples == init + [last];
      MeasuredCounts(init);
      MeasuredSnoc(init, last);
    }
  }

  /** Each nonzero value is kept as often as it occurs; zero is never kept. */
  lemma {:induction false} NonZeroCounts(xs: seq<int>)
    ensures forall v :: multiset(NonZero(xs))[v] == if v == 0 then 0 else multiset(xs)[v]
    decreases |xs|
  {
    if xs != [] {
      var init, last := xs[..|xs| - 1], xs[|xs| - 1];
      assert xs == init + [last];
      NonZeroCounts(init);
      NonZeroSnoc(init, last);
    }
  }

  lemma SameMeasured(a: seq<Option<int>>, b: seq<Option<int>>)
    requires multiset(a) == multiset(b)
    ensures multiset(Measured(a)) == multiset(Measured(b))
  {
    MeasuredCounts(a);
    MeasuredCounts(b);
    forall v ensures multiset(Measured(a))[v] == multiset(Measured(b))[v] {
      assert multiset(a)[Some(v)] == multiset(b)[Some(v)];
    }
  }

  lemma SameNonZero(xs: seq<int>, ys: seq<int>)
    requires multiset(xs) == multiset(ys)
    ensures multiset(NonZero(xs)) == multiset(NonZero(ys))
  {
    NonZeroCounts(xs);
    NonZeroCounts(ys);
    forall v ensures multiset(NonZero(xs))[v] == multiset(NonZero(ys))[v] {
      assert multiset(xs)[v] == multiset(ys)[v];
    }
  }

  /** Both reducer rules give the same result for any reordering of the samples. */
  lemma ReducersOrderIndependent(a: seq<Option<int>>, b: seq<Option<int>>)
    requires multiset(a) == multiset(b)
    ensures MeasuredStats(a) == MeasuredStats(b)
    ensures NonZeroStats(a) == NonZeroStats(b)
  {
    var pa, pb := Measured(a), Measured(b);
    SameMeasured(a, b);
    SameNonZero(pa, pb);
    var xa, xb := NonZero(pa), NonZero(pb);
    assert |pa| == |multiset(pa)| == |multiset(pb)| == |pb|;
    assert |xa| == |multiset(xa)| == |multiset(xb)| == |xb|;
    if xa != [] {
      SummarizeOrderIndependent(xa, xb);
    }
    MeasuredStatsDefinition(a);
    MeasuredStatsDefinition(b);
    NonZeroStatsDefinition(a);
    NonZeroStatsDefinition(b);
  }

  /** The first-response and the close/answer rules agree except where every present sample is zero. */
  lemma ZeroSampleAsymmetry(samples: seq<Option<int>>)
    ensures MeasuredStats(samples).Computed? <==> NonZeroStats(samples).Some?
    ensures MeasuredStats(samples).Computed? ==> MeasuredStats(samples).stats == NonZeroStats(samples).value
    ensures MeasuredStats(samples).EmptySampleError? <==> NonZeroStats(samples).None? && Measured(samples) != []
  {
  }

  /** A single sample is its own average, median and 90th percentile. */
  lemma SingleSample(x: int)
    ensures Summarize([x]) == Stats(x, x, x)
  {
  }

  /** Two samples of 9 and 18 hours: 13.5 hours on average and as median, 17.1 hours at the 90th percentile. */
  lemma NineAndEighteenHours()
    ensures Summarize([32400, 64800]) == Stats(48600, 48600, 61560)
  {
    var xs := [32400, 64800];
    SortTwo(32400, 64800);
    MeanTwo(32400, 64800);
    SummarizeDefinition(xs);
  }

  lemma SortTwo(a: int, b: int)
    requires a <= b
    ensures Sort([a, b]) == [a, b]
  {
    assert [a, b][..1] == [a];
  }

  lemma MeanTwo(a: int, b: int)
    ensures Mean([a, b]) == (a + b) as real / 2.0
  {
    var xs := [a, b];
    assert xs[..|xs| - 1] == [a];
    assert [a][..0] == [];
    assert Sum([a]) == Sum([]) + a;
    assert Sum(xs) == Sum([a]) + b;
  }

  lemma SummarizeDefinition(xs: seq<int>)
    requires |xs| > 0
    ensures Summarize(xs) == Stats(RoundHalfEven(Mean(xs)), RoundHalfEven(Median(Sort(xs))),
                                   RoundHalfEven(Percentile(Sort(xs), 90)))
  {
  }
}
