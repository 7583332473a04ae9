/** The summary of a benchmark sample, over the reals: the spread is its variance, before the square root. */
module Distribution {
  import opened StableSort

  predicate AtMost(a: real, b: real) {
    a <= b
  }

  function Sum(xs: seq<real>): real {
    if xs == [] then 0.0 else xs[0] + Sum(xs[1..])
  }

  function Mean(xs: seq<real>): real
    requires xs != []
  {
    Sum(xs) / |xs| as real
  }

  function Square(x: real): real {
    x * x
  }

  function SquaredDeviations(xs: seq<real>, mean: real): real {
    if xs == [] then 0.0 else Square(xs[0] - mean) + SquaredDeviations(xs[1..], mean)
  }

  function Ceiling(x: real): int {
    if x.Floor as real == x then x.Floor else x.Floor + 1
  }

  /** The value a fraction of the way from `a` to `b`. */
  function Blend(a: real, b: real, fraction: real): real {
    a + fraction * (b - a)
  }

  /** The value at a position between two samples, on the line between them. */
  function Interpolate(sorted: seq<real>, position: real): real
    requires sorted != [] && 0.0 <= position <= (|sorted| - 1) as real
  {
    Blend(sorted[position.Floor], sorted[Ceiling(position)], position - position.Floor as real)
  }

  function Position(quantile: real, last: nat): (r: real)
    requires 0.0 <= quantile <= 1.0
    ensures 0.0 <= r <= last as real
  {
    quantile * last as real
  }

  function Percentile(sorted: seq<real>, quantile: real): real
    requires sorted != [] && 0.0 <= quantile <= 1.0
  {
    Interpolate(sorted, Position(quantile, |sorted| - 1))
  }

  datatype Distribution = Distribution(mean: real, low: real, p10: real, median: real, p90: real, high: real, variance: real)

  function New(values: seq<real>): Distribution
    requires values != []
  {
    SortedSample(values);
    var sorted := Sort(AtMost, values);
    var mean := Mean(sorted);
    Distribution(mean, sorted[0], Percentile(sorted, 0.10), Percentile(sorted, 0.50), Percentile(sorted, 0.90),
                 sorted[|sorted| - 1], SquaredDeviations(sorted, mean) / |sorted| as real)
  }

  lemma SortedSample(values: seq<real>)
    ensures Sorted(AtMost, Sort(AtMost, values)) && |Sort(AtMost, values)| == |values|
    ensures multiset(Sort(AtMost, values)) == multiset(values)
  {
    assert TotalPreorder(AtMost);
    SortSorts(AtMost, values);
  }

  lemma FiguresAre(values: seq<real>)
    requires values != []
    ensures var (d, sorted) := (New(values), Sort(AtMost, values));
            && sorted != [] && d.mean == Mean(sorted)
            && d.variance == SquaredDeviations(sorted, Mean(sorted)) / |sorted| as real
            && d.p10 == Percentile(sorted, 0.10) && d.median == Percentile(sorted, 0.50) && d.p90 == Percentile(sorted, 0.90)
  {
    SortedSample(values);
    hide Percentile, SquaredDeviations, Mean, Sort;
  }

  // ----- percentiles

  lemma NonNegativeProduct(a: real, b: real)
    requires a >= 0.0 && b >= 0.0
    ensures a * b >= 0.0
  {
  }

  lemma BlendLiesBetween(a: real, b: real, fraction: real)
    requires a <= b && 0.0 <= fraction <= 1.0
    ensures a <= Blend(a, b, fraction) <= b
  {
    var gap := b - a;
    NonNegativeProduct(fraction, gap);
    NonNegativeProduct(1.0 - fraction, gap);
    assert (1.0 - fraction) * gap == gap - fraction * gap;
  }

  lemma BlendIsMonotone(a: real, b: real, f: real, g: real)
    requires a <= b && f <= g
    ensures Blend(a, b, f) <= Blend(a, b, g)
  {
  }

  lemma BlendHalfway(a: real, b: real)
    ensures Blend(a, b, 0.5) == (a + b) / 2.0
  {
  }

  lemma BlendAtZero(a: real, b: real)
    ensures Blend(a, b, 0.0) == a
  {
  }

  /** A value between two neighbours stays between them. */
  lemma InterpolatesBetween(sorted: seq<real>, position: real)
    requires sorted != [] && Sorted(AtMost, sorted) && 0.0 <= position <= (|sorted| - 1) as real
    ensures sorted[position.Floor] <= Interpolate(sorted, position) <= sorted[Ceiling(position)]
  {
    hide Blend;
    var lower, upper := position.Floor, Ceiling(position);
    assert lower < upper ==> AtMost(sorted[lower], sorted[upper]);
    BlendLiesBetween(sorted[lower], sorted[upper], position - lower as real);
  }

  lemma InterpolateIsMonotone(sorted: seq<real>, x: real, y: real)
    requires sorted != [] && Sorted(AtMost, sorted)
    requires 0.0 <= x <= y <= (|sorted| - 1) as real
    ensures Interpolate(sorted, x) <= Interpolate(sorted, y)
  {
    hide Blend;
    InterpolatesBetween(sorted, x);
    InterpolatesBetween(sorted, y);
    if x.Floor < y.Floor {
      assert Ceiling(x) <= y.Floor;
      assert Ceiling(x) < y.Floor ==> AtMost(sorted[Ceiling(x)], sorted[y.Floor]);
    } else if x.Floor as real == x {
      BlendAtZero(sorted[x.Floor], sorted[Ceiling(x)]);
    } else {
      assert Ceiling(x) == Ceiling(y) && AtMost(sorted[x.Floor], sorted[Ceiling(x)]);
      BlendIsMonotone(sorted[x.Floor], sorted[Ceiling(x)], x - x.Floor as real, y - y.Floor as real);
    }
  }

  lemma PositionIsMonotone(p: real, q: real, last: nat)
    requires 0.0 <= p <= q <= 1.0
    ensures Position(p, last) <= Position(q, last)
  {
    NonNegativeProduct(q - p, last as real);
    assert (q - p) * last as real == q * last as real - p * last as real;
  }

  /** A higher quantile never has a lower value. */
  lemma PercentileIsMonotone(sorted: seq<real>, p: real, q: real)
    requires sorted != [] && Sorted(AtMost, sorted) && 0.0 <= p <= q <= 1.0
    ensures Percentile(sorted, p) <= Percentile(sorted, q)
  {
    hide Position, Interpolate, Sorted;
    var last := |sorted| - 1;
    PositionIsMonotone(p, q, last);
    InterpolateIsMonotone(sorted, Position(p, last), Position(q, last));
  }

  lemma Extremes(sorted: seq<real>)
    requires sorted != []
    ensures Percentile(sorted, 0.0) == sorted[0]
    ensures Percentile(sorted, 1.0) == sorted[|sorted| - 1]
  {
  }

  /** The median is the middle sample, or half-way between the two middle ones. */
  lemma MedianIsTheMiddle(sorted: seq<real>)
    requires sorted != []
    ensures var n := |sorted|;
            Percentile(sorted, 0.50) ==
            if n % 2 == 1 then sorted[n / 2] else (sorted[n / 2 - 1] + sorted[n / 2]) / 2.0
  {
    var n := |sorted|;
    var position := 0.50 * (n - 1) as real;
    if n % 2 == 1 {
      assert position == (n / 2) as real;
    } else {
      assert position == (n / 2 - 1) as real + 0.5;
      assert position.Floor == n / 2 - 1 && Ceiling(position) == n / 2;
      BlendHalfway(sorted[n / 2 - 1], sorted[n / 2]);
    }
  }

  /** Between two samples that stand next to each other the percentile is on the line that
      joins them: the sample itself at its own quantile. */
  lemma PercentilesInterpolate(sorted: seq<real>, k: nat, f: real, quantile: real)
    requires k < |sorted| && 0.0 <= f < 1.0 && (k + 1 == |sorted| ==> f == 0.0)
    requires 0.0 <= quantile <= 1.0 && quantile * (|sorted| - 1) as real == k as real + f
    ensures Percentile(sorted, quantile) ==
            if f == 0.0 then sorted[k] else (1.0 - f) * sorted[k] + f * sorted[k + 1]
  {
    var position := Position(quantile, |sorted| - 1);
    assert position == k as real + f && position.Floor == k;
    if f == 0.0 {
      BlendAtZero(sorted[k], sorted[Ceiling(position)]);
    } else {
      assert Ceiling(position) == k + 1;
      BlendWeighs(sorted[k], sorted[k + 1], f);
    }
    hide Blend;
  }

  lemma BlendWeighs(a: real, b: real, f: real)
    ensures Blend(a, b, f) == (1.0 - f) * a + f * b
  {
  }

  /** Of ten times `m` and one samples the first decile is the one that `m` stand before, the
      last the one that `m` stand behind. */
  lemma DecilesAreSamples(values: seq<real>, m: nat)
    requires |values| == 10 * m + 1
    ensures var (d, sorted) := (New(values), Sort(AtMost, values));
            && |sorted| == |values| && d.p10 == sorted[m] && d.median == sorted[5 * m] && d.p90 == sorted[9 * m]
  {
    SortedSample(values);
    var sorted := Sort(AtMost, values);
    FiguresAre(values);
    hide *;
    Decile(sorted, m, 1, 0.10);
    Decile(sorted, m, 5, 0.50);
    Decile(sorted, m, 9, 0.90);
  }

  lemma Decile(sorted: seq<real>, m: nat, tenths: nat, quantile: real)
    requires |sorted| == 10 * m + 1 && tenths <= 10 && quantile * 10.0 == tenths as real
    ensures tenths * m < |sorted| && Percentile(sorted, quantile) == sorted[tenths * m]
  {
    var k := tenths * m;
    TenthOf(m, tenths, quantile);
    assert k <= 10 * m;
    hide Percentile;
    PercentilesInterpolate(sorted, k, 0.0, quantile);
  }

  lemma TenthOf(m: nat, tenths: nat, quantile: real)
    requires tenths <= 10 && quantile * 10.0 == tenths as real
    ensures tenths * m <= 10 * m && quantile * (10 * m) as real == (tenths * m) as real
  {
    assert quantile * (10 * m) as real == quantile * 10.0 * m as real;
  }

  // ----- mean and variance

  lemma Distribute(a: real, x: real, y: real)
    ensures a * (x + y) == a * x + a * y
  {
  }

  lemma {:induction false} SumIsBounded(xs: seq<real>, low: real, high: real)
    requires forall i :: 0 <= i < |xs| ==> low <= xs[i] <= high
    ensures low * |xs| as real <= Sum(xs) <= high * |xs| as real
  {
    if xs != [] {
      SumIsBounded(xs[1..], low, high);
      Distribute(low, 1.0, |xs[1..]| as real);
      Distribute(high, 1.0, |xs[1..]| as real);
      assert |xs| as real == 1.0 + |xs[1..]| as real;
    }
  }

  lemma Divided(sum: real, n: nat, low: real, high: real)
    requires n > 0 && low * n as real <= sum <= high * n as real
    ensures low <= sum / n as real <= high
  {
  }

  /** The line that bounds the squared deviation of a sample between `low` and `high`. */
  function Slope(mean: real, low: real, high: real): real {
    high + low - 2.0 * mean
  }

  function Offset(mean: real, low: real, high: real): real {
    mean * mean - high * low
  }

  predicate WithinBound(x: real, mean: real, a: real, c: real) {
    Square(x - mean) <= a * x + c
  }

  lemma DeviationBound(x: real, mean: real, low: real, high: real)
    requires low <= x <= high
    ensures WithinBound(x, mean, Slope(mean, low, high), Offset(mean, low, high))
  {
  }

  function LinearBound(a: real, c: real, sum: real, n: real): real {
    a * sum + n * c
  }

  lemma OneMoreBound(a: real, c: real, x: real, sum: real, n: real)
    ensures LinearBound(a, c, x + sum, 1.0 + n) == (a * x + c) + LinearBound(a, c, sum, n)
  {
  }

  lemma {:induction false} DeviationsAreBounded(xs: seq<real>, mean: real, a: real, c: real)
    requires forall i :: 0 <= i < |xs| ==> WithinBound(xs[i], mean, a, c)
    ensures SquaredDeviations(xs, mean) <= LinearBound(a, c, Sum(xs), |xs| as real)
  {
    hide LinearBound, Square;
    if xs == [] {
      NoBound(a, c);
    } else {
      var rest := xs[1..];
      assert forall i :: 0 <= i < |rest| ==> rest[i] == xs[i + 1];
      DeviationsAreBounded(rest, mean, a, c);
      OneMoreBound(a, c, xs[0], Sum(rest), |rest| as real);
      assert WithinBound(xs[0], mean, a, c);
      assert |xs| as real == 1.0 + |rest| as real;
    }
  }

  lemma NoBound(a: real, c: real)
    ensures LinearBound(a, c, 0.0, 0.0) == 0.0
  {
  }

  lemma {:induction false} DeviationsAreNonNegative(xs: seq<real>, mean: real)
    ensures SquaredDeviations(xs, mean) >= 0.0
  {
    if xs != [] {
      DeviationsAreNonNegative(xs[1..], mean);
      SquareIsNonNegative(xs[0] - mean);
    }
  }

  lemma SquareIsNonNegative(x: real)
    ensures Square(x) >= 0.0
  {
  }

  /** The variance never exceeds the product of the mean's distances to the extremes. */
  lemma VarianceBound(xs: seq<real>, low: real, high: real)
    requires xs != [] && forall i :: 0 <= i < |xs| ==> low <= xs[i] <= high
    ensures var mean := Mean(xs);
            && low <= mean <= high
            && 0.0 <= SquaredDeviations(xs, mean) / |xs| as real <= (high - mean) * (mean - low)
  {
    hide Sum, SquaredDeviations, Square, WithinBound, LinearBound, Slope, Offset;
    var n, mean := |xs|, Mean(xs);
    SumIsBounded(xs, low, high);
    Divided(Sum(xs), n, low, high);
    forall i | 0 <= i < n
      ensures WithinBound(xs[i], mean, Slope(mean, low, high), Offset(mean, low, high))
    {
      DeviationBound(xs[i], mean, low, high);
    }
    DeviationsAreBounded(xs, mean, Slope(mean, low, high), Offset(mean, low, high));
    DeviationsAreNonNegative(xs, mean);
    SpreadBound(SquaredDeviations(xs, mean), Sum(xs), n, mean, low, high);
  }

  lemma SpreadBound(deviations: real, sum: real, n: nat, mean: real, low: real, high: real)
    requires n > 0 && mean == sum / n as real && deviations >= 0.0
    requires deviations <= LinearBound(Slope(mean, low, high), Offset(mean, low, high), sum, n as real)
    ensures 0.0 <= deviations / n as real <= (high - mean) * (mean - low)
  {
  }

  // ----- the summary

  /** The figures of every sample stand in order, and its spread is bounded by them. */
  lemma FiguresAreOrdered(values: seq<real>)
    requires values != []
    ensures var d := New(values);
            && d.low <= d.p10 <= d.median <= d.p90 <= d.high
            && d.low <= d.mean <= d.high
            && 0.0 <= d.variance <= (d.high - d.mean) * (d.mean - d.low)
  {
    hide Percentile, SquaredDeviations, Mean, Sort;
    var sorted := Sort(AtMost, values);
    SortedSample(values);
    Extremes(sorted);
    PercentileIsMonotone(sorted, 0.0, 0.10);
    PercentileIsMonotone(sorted, 0.10, 0.50);
    PercentileIsMonotone(sorted, 0.50, 0.90);
    PercentileIsMonotone(sorted, 0.90, 1.0);
    var n := |sorted|;
    forall i | 0 <= i < n ensures sorted[0] <= sorted[i] <= sorted[n - 1] {
      assert i > 0 ==> AtMost(sorted[0], sorted[i]);
      assert i < n - 1 ==> AtMost(sorted[i], sorted[n - 1]);
    }
    VarianceBound(sorted, sorted[0], sorted[n - 1]);
  }

  /** The order the sample arrives in changes no figure. */
  lemma FiguresDoNotDependOnOrder(values: seq<real>, shuffled: seq<real>)
    requires values != [] && multiset(values) == multiset(shuffled)
    ensures shuffled != [] && New(shuffled) == New(values)
  {
    assert |multiset(values)| == |values| && |multiset(shuffled)| == |shuffled|;
    assert TotalPreorder(AtMost);
    SortedSample(values);
    SortedSample(shuffled);
    SortedIsUnique(AtMost, Sort(AtMost, values), Sort(AtMost, shuffled));
  }

  /** The sum over the sample as it came in, from its last value on, of the values
      themselves or of their squares. */
  function Total(values: seq<real>, squared: bool): real {
    if values == [] then 0.0
    else
      var v := values[|values| - 1];
      Total(values[..|values| - 1], squared) + if squared then v * v else v
  }

  lemma {:induction false} TotalFromTheFront(v: real, values: seq<real>, squared: bool)
    ensures Total([v] + values, squared) == (if squared then v * v else v) + Total(values, squared)
    decreases |values|
  {
    var all := [v] + values;
    if values == [] {
      assert all == [v] && all[..0] == [];
    } else {
      TotalFromTheFront(v, values[..|values| - 1], squared);
      assert all[..|all| - 1] == [v] + values[..|values| - 1];
    }
  }

  lemma {:induction false} TotalOfInserted(v: real, values: seq<real>, squared: bool)
    ensures Total(Insert(AtMost, v, values), squared) == (if squared then v * v else v) + Total(values, squared)
  {
    if values == [] || AtMost(v, values[0]) {
      TotalFromTheFront(v, values, squared);
      assert [v] + [] == [v];
    } else {
      TotalOfInserted(v, values[1..], squared);
      TotalFromTheFront(values[0], Insert(AtMost, v, values[1..]), squared);
      TotalFromTheFront(values[0], values[1..], squared);
      assert values == [values[0]] + values[1..];
    }
  }

  lemma {:induction false} TotalOfSorted(values: seq<real>, squared: bool)
    ensures Total(Sort(AtMost, values), squared) == Total(values, squared)
  {
    if values != [] {
      TotalOfSorted(values[1..], squared);
      TotalOfInserted(values[0], Sort(AtMost, values[1..]), squared);
      TotalFromTheFront(values[0], values[1..], squared);
      assert values == [values[0]] + values[1..];
    }
  }

  lemma {:induction false} SumIsTotal(xs: seq<real>)
    ensures Sum(xs) == Total(xs, false)
  {
    if xs != [] {
      SumIsTotal(xs[1..]);
      TotalFromTheFront(xs[0], xs[1..], false);
      assert xs == [xs[0]] + xs[1..];
    }
  }

  /** What the squared deviations add up to, multiplied out. */
  function Spread(squares: real, sum: real, n: real, mean: real): real {
    squares - 2.0 * mean * sum + n * mean * mean
  }

  lemma OneMoreSpread(x: real, squares: real, sum: real, n: real, mean: real)
    ensures Spread(x * x + squares, x + sum, 1.0 + n, mean) == Square(x - mean) + Spread(squares, sum, n, mean)
  {
  }

  lemma {:induction false} DeviationsAreSpread(xs: seq<real>, mean: real)
    ensures SquaredDeviations(xs, mean) == Spread(Total(xs, true), Total(xs, false), |xs| as real, mean)
  {
    if xs == [] {
      NoSpread(mean);
    } else {
      var rest := xs[1..];
      DeviationsAreSpread(rest, mean);
      TotalFromTheFront(xs[0], rest, true);
      TotalFromTheFront(xs[0], rest, false);
      assert xs == [xs[0]] + rest;
      assert |xs| as real == 1.0 + |rest| as real;
      hide Spread, Square, Total;
      OneMoreSpread(xs[0], Total(rest, true), Total(rest, false), |rest| as real, mean);
    }
  }

  lemma NoSpread(mean: real)
    ensures Spread(0.0, 0.0, 0.0, mean) == 0.0
  {
  }

  /** What makes `mean` and `variance` those of `n` values with these sums. */
  predicate AreMoments(mean: real, variance: real, n: real, sum: real, squares: real) {
    mean * n == sum && variance * n == squares - n * mean * mean
  }

  lemma SpreadOverMean(squares: real, sum: real, n: real, mean: real, variance: real)
    requires n > 0.0 && mean == sum / n && variance == Spread(squares, sum, n, mean) / n
    ensures AreMoments(mean, variance, n, sum, squares)
  {
    assert mean * n == sum;
    assert mean * sum == mean * (mean * n) == n * mean * mean;
    assert variance * n == Spread(squares, sum, n, mean);
  }

  lemma MomentsOfSorted(sorted: seq<real>)
    requires sorted != []
    ensures AreMoments(Mean(sorted), SquaredDeviations(sorted, Mean(sorted)) / |sorted| as real, |sorted| as real,
                       Total(sorted, false), Total(sorted, true))
  {
    SumIsTotal(sorted);
    DeviationsAreSpread(sorted, Mean(sorted));
    MeanIsQuotient(sorted);
    hide *;
    SpreadOverMean(Total(sorted, true), Total(sorted, false), |sorted| as real, Mean(sorted),
                   SquaredDeviations(sorted, Mean(sorted)) / |sorted| as real);
  }

  lemma MeanIsQuotient(xs: seq<real>)
    requires xs != []
    ensures Mean(xs) == Sum(xs) / |xs| as real
  {
  }

  /** The mean is the sum over the number, and the variance the mean of the squares less the
      square of the mean. */
  lemma MeanAndVarianceAreMoments(values: seq<real>)
    requires values != []
    ensures AreMoments(New(values).mean, New(values).variance, |values| as real, Total(values, false), Total(values, true))
  {
    var sorted := Sort(AtMost, values);
    SortedSample(values);
    TotalOfSorted(values, true);
    TotalOfSorted(values, false);
    FiguresAre(values);
    hide *;
    MomentsOfSorted(sorted);
  }

  /** The extremes are samples, and no sample lies outside them. */
  lemma ExtremesAreSamples(values: seq<real>)
    requires values != []
    ensures var d := New(values);
            && d.low in values && d.high in values && forall v :: v in values ==> d.low <= v <= d.high
  {
    hide Percentile, SquaredDeviations, Mean;
    var sorted := Sort(AtMost, values);
    SortedSample(values);
    assert TotalPreorder(AtMost);
    assert sorted[0] in multiset(sorted) && sorted[|sorted| - 1] in multiset(sorted);
    forall v | v in values ensures sorted[0] <= v <= sorted[|sorted| - 1] {
      assert v in multiset(sorted);
      var i :| 0 <= i < |sorted| && sorted[i] == v;
      assert i > 0 ==> AtMost(sorted[0], sorted[i]);
      assert i < |sorted| - 1 ==> AtMost(sorted[i], sorted[|sorted| - 1]);
    }
  }
}
