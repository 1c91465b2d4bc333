/** The outlier filter of the Rust decoder (math/src/lib.rs). Floating point is taken as exact. */
module OutlierFilter {
  import opened Wire
  import opened Numbers

  /** The mean is truncated. */
  function Mean(data: seq<nat>): nat
    requires data != []
  {
    Sum(data) / |data|
  }

  function Deviation(x: nat, mean: nat): nat {
    if x < mean then mean - x else x - mean
  }

  function SquaredDeviations(data: seq<nat>, mean: nat): nat {
    if data == [] then 0
    else
      var d := Deviation(data[|data| - 1], mean);
      SquaredDeviations(data[..|data| - 1], mean) + d * d
  }

  /** Within k sample standard deviations of the mean, without the square root: v is the sum of the
      squared deviations and n - 1 the divisor of the variance. */
  predicate Within(d: nat, k: nat, v: nat, n: nat)
    requires 2 <= n
  {
    d * d * (n - 1) <= k * k * v
  }

  function Kept(data: seq<nat>, mean: nat, k: nat, v: nat, n: nat): (r: seq<nat>)
    requires 2 <= n
    ensures |r| <= |data|
  {
    if data == [] then []
    else
      var x := data[|data| - 1];
      Kept(data[..|data| - 1], mean, k, v, n) + if Within(Deviation(x, mean), k, v, n) then [x] else []
  }

  /** Rounds a quotient to the nearest integer, halves away from zero. */
  function Round(sum: nat, cnt: nat): nat
    requires 0 < cnt
  {
    (2 * sum + cnt) / (2 * cnt)
  }

  function FilteredMean(data: seq<nat>, stdDeviations: nat): Option<nat> {
    if data == [] then None
    else
      var mean := Mean(data);
      if |data| == 1 then Some(mean)
      else
        var kept := Kept(data, mean, stdDeviations, SquaredDeviations(data, mean), |data|);
        if kept == [] then None else Some(Round(Sum(kept), |kept|))
  }

  lemma SquareLess(a: real, b: real, m: real)
    requires 0.0 <= a < b && 0.0 < m
    ensures a * a * m < b * b * m
  {
    PositiveProduct(b - a, b + a);
    PositiveProduct((b - a) * (b + a), m);
    assert (b - a) * (b + a) == b * b - a * a;
    assert (b * b - a * a) * m == b * b * m - a * a * m;
  }

  lemma SquareOrder(a: real, b: real, m: real)
    requires 0.0 <= a && 0.0 <= b && 0.0 < m
    ensures a <= b <==> a * a * m <= b * b * m
  {
    if a < b {
      SquareLess(a, b, m);
    } else if b < a {
      SquareLess(b, a, m);
    }
  }

  /** The square root can be avoided: s is the sample standard deviation. */
  lemma WithinIsThreshold(d: nat, k: nat, v: nat, n: nat, s: real)
    requires 2 <= n && 0.0 <= s && s * s * (n - 1) as real == v as real
    ensures d as real <= k as real * s <==> Within(d, k, v, n)
  {
    var d', k', m := d as real, k as real, (n - 1) as real;
    var t := k' * s;
    assert t * t * m == k' * k' * (s * s * m) by {
      assert t * t == k' * k' * (s * s);
    }
    SquareOrder(d', t, m);
    assert (d * d * (n - 1)) as real == d' * d' * m;
    assert (k * k * v) as real == k' * k' * v as real;
  }

  // ---- Chebyshev ----

  function Discarded(data: seq<nat>, mean: nat, k: nat, v: nat, n: nat): nat
    requires 2 <= n
  {
    |data| - |Kept(data, mean, k, v, n)|
  }

  lemma WeighOne(d: nat, w: nat, t: nat, square: nat, m: nat)
    ensures (w + square) * m == w * m + square * m && 0 <= square * m && (d + 1) * t == d * t + t
  {}

  /** Every discarded sample carries more than k * k * v / (n - 1) of the squared deviations. */
  lemma {:induction false} DiscardedWeigh(data: seq<nat>, mean: nat, k: nat, v: nat, n: nat)
    requires 2 <= n
    ensures var d := Discarded(data, mean, k, v, n);
      d > 0 ==> d * (k * k * v) < SquaredDeviations(data, mean) * (n - 1)
    ensures Discarded(data, mean, k, v, n) * (k * k * v) <= SquaredDeviations(data, mean) * (n - 1)
  {
    if data != [] {
      var init, x := data[..|data| - 1], data[|data| - 1];
      var dev := Deviation(x, mean);
      var d, w, t := Discarded(init, mean, k, v, n), SquaredDeviations(init, mean), k * k * v;
      DiscardedWeigh(init, mean, k, v, n);
      WeighOne(d, w, t, dev * dev, n - 1);
      hide Kept, SquaredDeviations, Deviation;
    }
  }

  lemma CancelDeviations(d: nat, k: nat, v: nat, n: nat)
    requires 2 <= n && (d > 0 ==> d * (k * k * v) < v * (n - 1))
    ensures d == 0 || d * (k * k) < n - 1
  {
    if d > 0 {
      assert d * (k * k * v) == d * (k * k) * v;
      assert v > 0;
      LessFactor(d * (k * k), n - 1, v);
    }
  }

  /** Chebyshev, about any centre: the number of samples discarded is zero or, times k squared,
      strictly below n - 1. */
  lemma ChebyshevBound(data: seq<nat>, mean: nat, k: nat)
    requires 2 <= |data|
    ensures var d := Discarded(data, mean, k, SquaredDeviations(data, mean), |data|);
      d == 0 || d * (k * k) < |data| - 1
  {
    var v, n := SquaredDeviations(data, mean), |data|;
    DiscardedWeigh(data, mean, k, v, n);
    CancelDeviations(Discarded(data, mean, k, v, n), k, v, n);
  }

  // ---- the result ----

  lemma {:induction false} KeptIsFiltered(data: seq<nat>, mean: nat, k: nat, v: nat, n: nat)
    requires 2 <= n
    ensures forall x: nat ::
      multiset(Kept(data, mean, k, v, n))[x] == (if Within(Deviation(x, mean), k, v, n) then multiset(data)[x] else 0)
    ensures forall x :: x in Kept(data, mean, k, v, n) <==> x in data && Within(Deviation(x, mean), k, v, n)
  {
    if data != [] {
      KeptIsFiltered(data[..|data| - 1], mean, k, v, n);
      assert data == data[..|data| - 1] + [data[|data| - 1]];
    }
  }

  lemma RoundWithin(sum: nat, cnt: nat, lo: nat, hi: nat)
    requires 0 < cnt && lo * cnt <= sum <= hi * cnt
    ensures lo <= Round(sum, cnt) <= hi
  {
    assert lo * (2 * cnt) == 2 * (lo * cnt) && (hi + 1) * (2 * cnt) == 2 * (hi * cnt) + 2 * cnt;
    FloorBetween(2 * sum + cnt, 2 * cnt, lo, hi);
  }

  /** What Round means: no integer is nearer to the quotient. */
  lemma RoundIsNearest(sum: nat, cnt: nat)
    requires 0 < cnt
    ensures -(cnt as int) <= 2 * (sum - Round(sum, cnt) * cnt) < cnt
  {
    var q, r := Round(sum, cnt), (2 * sum + cnt) % (2 * cnt);
    assert 2 * sum + cnt == q * (2 * cnt) + r;
    assert q * (2 * cnt) == 2 * (q * cnt);
  }

  lemma SurvivorLeft(d: nat, k: nat, n: nat)
    requires 1 <= k && 2 <= n && (d == 0 || d * (k * k) < n - 1)
    ensures d + 2 <= n
  {
    assert k * k >= 1;
    assert d * (k * k) >= d;
  }

  /** For one deviation or more, no non-empty data is filtered away altogether, at least two samples
      survive when there are two, and the result lies between the smallest and the largest. */
  lemma FilteredMeanInRange(data: seq<nat>, k: nat, lo: nat, hi: nat)
    requires data != [] && 1 <= k
    requires forall i :: 0 <= i < |data| ==> lo <= data[i] <= hi
    ensures FilteredMean(data, k).Some? && lo <= FilteredMean(data, k).value <= hi
    ensures 2 <= |data| ==>
      2 <= |Kept(data, Mean(data), k, SquaredDeviations(data, Mean(data)), |data|)|
  {
    if |data| == 1 {
      assert Sum(data) == Sum([]) + data[0];
    } else {
      var mean, v := Mean(data), SquaredDeviations(data, Mean(data));
      var kept := Kept(data, mean, k, v, |data|);
      ChebyshevBound(data, mean, k);
      SurvivorLeft(|data| - |kept|, k, |data|);
      KeptIsFiltered(data, mean, k, v, |data|);
      forall i | 0 <= i < |kept| ensures lo <= kept[i] <= hi {
        assert kept[i] in data;
      }
      SumWithin(kept, lo, hi);
      RoundWithin(Sum(kept), |kept|, lo, hi);
    }
  }

  lemma NoTolerance(d: nat, v: nat, n: nat)
    requires 2 <= n
    ensures Within(d, 0, v, n) <==> d == 0
  {
    if d > 0 {
      assert d * d > 0;
      assert d * d * (n - 1) > 0;
    }
  }

  lemma KeptWithoutTolerance(data: seq<nat>, mean: nat, v: nat, n: nat)
    requires 2 <= n
    ensures Kept(data, mean, 0, v, n) == [] <==> mean !in data
  {
    var kept := Kept(data, mean, 0, v, n);
    KeptIsFiltered(data, mean, 0, v, n);
    forall x: nat ensures Within(Deviation(x, mean), 0, v, n) <==> x == mean {
      NoTolerance(Deviation(x, mean), v, n);
    }
    hide Within, Kept;
    if kept != [] {
      assert kept[0] in kept;
    }
  }

  /** Without a tolerance only samples equal to the truncated mean survive, and the filter finds
      nothing exactly when there is none. */
  lemma NothingLeftExactly(data: seq<nat>, k: nat)
    ensures FilteredMean(data, k).None? <==>
            data == [] || (2 <= |data| && k == 0 && Mean(data) !in data)
  {
    if data != [] {
      if 1 <= k {
        SumBoundsEach(data);
        FilteredMeanInRange(data, k, 0, Sum(data));
      } else if 2 <= |data| {
        KeptWithoutTolerance(data, Mean(data), SquaredDeviations(data, Mean(data)), |data|);
      }
    }
  }

  /** Such data: the mean of 1 and 3 is 2, and both are discarded. */
  lemma NothingLeftExample()
    ensures FilteredMean([1, 3], 0).None?
  {
    assert [1, 3][..1] == [1] && [1][..0] == [];
    assert Sum([1, 3]) == 4;
    NothingLeftExactly([1, 3], 0);
  }

  // ---- what the result is ----

  lemma NoNegativeSquare(x: int)
    ensures 0 <= x * x
  {}

  function Square(x: int): nat {
    NoNegativeSquare(x);
    x * x
  }

  /** The squared distances of the samples from a centre. */
  function Squares(data: seq<nat>, centre: int): (r: seq<nat>)
    ensures |r| == |data|
  {
    seq(|data|, i requires 0 <= i < |data| => Square(data[i] - centre))
  }

  /** A sample that counts: its squared distance from the truncated mean is at most k * k times the
      variance. */
  predicate Counts(data: seq<nat>, k: nat, x: nat)
    requires 2 <= |data|
  {
    var mean: int := Sum(data) / |data|;
    (|data| - 1) * Square(x - mean) <= k * k * Sum(Squares(data, mean))
  }

  /** t lists the samples that count, each as often as it was taken, in any order. */
  ghost predicate Lists(t: seq<nat>, data: seq<nat>, k: nat)
    requires 2 <= |data|
  {
    forall x: nat :: multiset(t)[x] == if Counts(data, k, x) then multiset(data)[x] else 0
  }

  lemma SquareOfDeviation(x: nat, mean: nat)
    ensures Square(x - mean) == Deviation(x, mean) * Deviation(x, mean)
  {
    if x < mean {
      assert (x - mean) * (x - mean) == (mean - x) * (mean - x);
    }
  }

  lemma {:induction false} SumOfSquares(data: seq<nat>, mean: nat)
    ensures Sum(Squares(data, mean)) == SquaredDeviations(data, mean)
  {
    if data != [] {
      var n := |data| - 1;
      SumOfSquares(data[..n], mean);
      assert Squares(data, mean)[..n] == Squares(data[..n], mean);
      SquareOfDeviation(data[n], mean);
    }
  }

  lemma CountsIsWithin(data: seq<nat>, k: nat, x: nat)
    requires 2 <= |data|
    ensures var mean := Mean(data);
      Counts(data, k, x) <==> Within(Deviation(x, mean), k, SquaredDeviations(data, mean), |data|)
  {
    SumOfSquares(data, Mean(data));
    SquareOfDeviation(x, Mean(data));
    hide Square, Squares, SquaredDeviations, Deviation;
    var d := Deviation(x, Mean(data));
    assert (|data| - 1) * (d * d) == d * d * (|data| - 1);
  }

  /** The result is the mean of exactly the samples that count, rounded to the nearest integer, halves
      up, and there is none exactly when no sample counts. */
  lemma FilteredMeanExactly(data: seq<nat>, k: nat, t: seq<nat>)
    requires 2 <= |data| && Lists(t, data, k)
    ensures match FilteredMean(data, k)
      case None => t == []
      case Some(m) => t != [] && -(|t| as int) <= 2 * (Sum(t) - m * |t|) < |t|
  {
    hide Within, Kept, Counts, SquaredDeviations, Deviation, Round, Sum;
    var mean, v := Mean(data), SquaredDeviations(data, Mean(data));
    var kept := Kept(data, mean, k, v, |data|);
    KeptIsFiltered(data, mean, k, v, |data|);
    forall x: nat ensures Counts(data, k, x) <==> Within(Deviation(x, mean), k, v, |data|) {
      CountsIsWithin(data, k, x);
    }
    var listed: multiset<nat>, left: multiset<nat> := multiset(t), multiset(kept);
    assert forall x: nat :: listed[x] == left[x];
    assert listed == left;
    SumOfSame(t, kept);
    if kept != [] {
      RoundIsNearest(Sum(kept), |kept|);
    }
  }

  /** Fewer than two samples are not filtered. */
  lemma FewSamples(x: nat, k: nat)
    ensures FilteredMean([], k) == None && FilteredMean([x], k) == Some(x)
  {
    assert [x][..0] == [];
    assert Sum([x]) == Sum([]) + x;
  }
}
