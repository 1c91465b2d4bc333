/** The band-limited derivative of the C firmware's controller (core1.c), over the reals. */
module DerivativeFilter {
  import opened Numbers

  /** The range of the 12-bit converter. */
  const ADC_MAX: real := 4095.0

  /** The derivative gain, the filter time constant and the sampling time. */
  datatype Filter = Filter(kD: real, tau: real, t: real)

  /** No division by zero in the coefficients. */
  predicate Sensible(p: Filter) {
    0.0 <= p.kD && 0.0 <= p.tau && 0.0 <= p.t && 0.0 < 2.0 * p.tau + p.t
  }

  function Cd0(p: Filter): real
    requires Sensible(p)
  {
    -(2.0 * p.kD) / (2.0 * p.tau + p.t)
  }

  function Cd1(p: Filter): real
    requires Sensible(p)
  {
    (2.0 * p.tau - p.t) / (2.0 * p.tau + p.t)
  }

  function Next(c0: real, c1: real, m: real, mPrev: real, dPrev: real): real {
    c0 * (m - mPrev) + c1 * dPrev
  }

  /** One step from the measurement mPrev to m. */
  function Filtered(p: Filter, m: real, mPrev: real, dPrev: real): real
    requires Sensible(p)
  {
    Next(Cd0(p), Cd1(p), m, mPrev, dPrev)
  }

  predicate Within(x: real, bound: real) {
    -bound <= x <= bound
  }

  lemma Cancel(a: real, b: real)
    requires 0.0 < b && a * b == 0.0
    ensures a == 0.0
  {}

  lemma NonNegativeProduct(a: real, b: real)
    requires 0.0 <= a && 0.0 <= b
    ensures 0.0 <= a * b
  {}

  lemma Negated(a: real, b: real)
    ensures -a * b == -(a * b)
  {}

  lemma SignOfProduct(a: real, b: real)
    requires 0.0 < b
    ensures 0.0 <= a <==> 0.0 <= a * b
    ensures 0.0 < a <==> 0.0 < a * b
  {
    if 0.0 < a {
      PositiveProduct(a, b);
    } else if a < 0.0 {
      PositiveProduct(-a, b);
      assert -a * b == -(a * b);
    }
  }

  lemma Distributes(a: real, b: real, c: real)
    ensures (a + b) * c == a * c + b * c && (a - b) * c == a * c - b * c
  {}

  lemma SignOf(a: real, b: real, product: real)
    requires 0.0 < b && a * b == product
    ensures (0.0 <= a <==> 0.0 <= product) && (0.0 < a <==> 0.0 < product)
  {
    SignOfProduct(a, b);
  }

  lemma Signs(c0: real, c1: real, sum: real, k: real, tau: real, t: real)
    requires 0.0 < sum == 2.0 * tau + t && 0.0 <= k && 0.0 <= t
    requires c0 * sum == -k && c1 * sum == 2.0 * tau - t
    ensures c0 <= 0.0 && c1 <= 1.0
    ensures t <= 2.0 * tau <==> 0.0 <= c1
    ensures 0.0 < tau <==> -1.0 < c1
  {
    Distributes(c1, 1.0, sum);
    Distributes(1.0, c1, sum);
    Negated(c0, sum);
    SignOf(c1, sum, 2.0 * tau - t);
    SignOf(c1 + 1.0, sum, 4.0 * tau);
    SignOf(1.0 - c1, sum, 2.0 * t);
    SignOf(-c0, sum, k);
  }

  /** The signs of the coefficients: the filter forgets exactly when there is a time constant, and
      it swings when the sampling time exceeds twice that. */
  lemma Coefficients(p: Filter)
    requires Sensible(p)
    ensures Cd0(p) * (2.0 * p.tau + p.t) == -2.0 * p.kD && Cd0(p) <= 0.0
    ensures Cd1(p) * (2.0 * p.tau + p.t) == 2.0 * p.tau - p.t
    ensures Cd1(p) <= 1.0
    ensures p.t <= 2.0 * p.tau <==> 0.0 <= Cd1(p)
    ensures 0.0 < p.tau <==> -1.0 < Cd1(p)
  {
    var sum := 2.0 * p.tau + p.t;
    TimesQuotient(-(2.0 * p.kD), sum);
    TimesQuotient(2.0 * p.tau - p.t, sum);
    assert Cd0(p) * sum == -(2.0 * p.kD) && Cd1(p) * sum == 2.0 * p.tau - p.t;
    hide Cd0, Cd1;
    Signs(Cd0(p), Cd1(p), sum, 2.0 * p.kD, p.tau, p.t);
  }

  /** The bound on the filtered derivative. */
  function Bound(p: Filter): real
    requires Sensible(p) && 0.0 < p.tau
  {
    if p.t <= 2.0 * p.tau then 2.0 * p.kD * ADC_MAX / (2.0 * p.tau + p.t) else p.kD * ADC_MAX / (2.0 * p.tau)
  }

  lemma NotAbove(a: real, sum: real, b: real, t: real, k: real)
    requires 0.0 < t && 2.0 * t <= sum && 0.0 <= k && a * sum == 2.0 * k && b * t == k
    ensures a <= b
  {
    SignOfProduct(b, t);
    NonNegativeProduct(b, sum - 2.0 * t);
    assert b * (sum - 2.0 * t) == b * sum - 2.0 * (b * t);
    assert (b - a) * sum == b * sum - a * sum;
    SignOfProduct(b - a, sum);
  }

  /** It is never above 4095 * k_d / min(t, 2 * tau). */
  lemma BoundBelowSimpleOne(p: Filter)
    requires Sensible(p) && 0.0 < p.tau && 0.0 < p.t
    ensures Bound(p) <= p.kD * ADC_MAX / (if p.t <= 2.0 * p.tau then p.t else 2.0 * p.tau)
  {
    if p.t <= 2.0 * p.tau {
      var k, sum := p.kD * ADC_MAX, 2.0 * p.tau + p.t;
      var a, b := 2.0 * p.kD * ADC_MAX / sum, k / p.t;
      assert a * sum == 2.0 * k && b * p.t == k;
      NonNegativeProduct(p.kD, ADC_MAX);
      NotAbove(a, sum, b, p.t, k);
    }
  }

  /** d is c times the distance of m from some value in the range of the converter. */
  predicate Lags(c: real, m: real, d: real) {
    0.0 <= d - c * m <= -c * ADC_MAX
  }

  /** What keeps the derivative bounded. A filter that does not swing holds the distance of the last
      measurement from an average of earlier ones; one that swings stays within its fixed point. */
  predicate Good(p: Filter, m: real, d: real)
    requires Sensible(p) && 0.0 < p.tau
  {
    if p.t <= 2.0 * p.tau then Lags(Cd0(p), m, d)
    else Within(d, Bound(p))
  }

  lemma Blend(w: real, a: real, b: real, top: real)
    requires 0.0 <= w <= 1.0 && 0.0 <= a <= top && 0.0 <= b <= top
    ensures 0.0 <= (1.0 - w) * a + w * b <= top
  {
    NonNegativeProduct(1.0 - w, a);
    NonNegativeProduct(w, b);
    NonNegativeProduct(1.0 - w, top - a);
    NonNegativeProduct(w, top - b);
    assert (1.0 - w) * (top - a) + w * (top - b) == top - ((1.0 - w) * a + w * b);
  }

  lemma AverageStep(c0: real, c1: real, m: real, next: real, d: real)
    requires c0 <= 0.0 && 0.0 <= c1 <= 1.0 && 0.0 <= m <= ADC_MAX
    requires Lags(c0, m, d)
    ensures Lags(c0, next, Next(c0, c1, next, m, d))
  {
    NonNegativeProduct(-c0, m);
    NonNegativeProduct(-c0, ADC_MAX - m);
    assert -c0 * m == -(c0 * m) && -c0 * (ADC_MAX - m) == -c0 * ADC_MAX + c0 * m;
    Blend(c1, -c0 * m, d - c0 * m, -c0 * ADC_MAX);
    assert c0 * (next - m) - c0 * next == -c0 * m;
    assert c1 * (d - c0 * m) == c1 * d - c1 * (c0 * m) && (1.0 - c1) * (-c0 * m) == -c0 * m + c1 * (c0 * m);
  }

  lemma SumWithin(u: real, a: real, v: real, e: real, b: real)
    requires Within(u, -a) && Within(v, -e) && -a - e == b
    ensures Within(u + v, b)
  {}

  lemma ScaledWithin(c: real, x: real, bound: real)
    requires Within(x, bound) && 0.0 <= c
    ensures Within(c * x, c * bound)
  {
    NonNegativeProduct(c, bound - x);
    NonNegativeProduct(c, bound + x);
  }

  lemma FallingWithin(c: real, x: real, bound: real)
    requires Within(x, bound) && c <= 0.0
    ensures Within(c * x, -(c * bound))
  {
    ScaledWithin(-c, x, bound);
    Negated(c, x);
    Negated(c, bound);
  }

  lemma SwingStep(c0: real, c1: real, m: real, next: real, d: real, b: real)
    requires c0 <= 0.0 && c1 <= 0.0 && Within(next - m, ADC_MAX) && Within(d, b)
    requires -c0 * ADC_MAX - c1 * b == b
    ensures Within(Next(c0, c1, next, m, d), b)
  {
    var dm, u, v := next - m, c0 * (next - m), c1 * d;
    FallingWithin(c0, dm, ADC_MAX);
    FallingWithin(c1, d, b);
    Negated(c0, ADC_MAX);
    SumWithin(u, c0 * ADC_MAX, v, c1 * b, b);
  }

  lemma FixedPoint(c0: real, c1: real, b: real, sum: real, m: real, kD: real)
    requires 0.0 < sum && c1 * sum == 2.0 * m - sum && b * m == kD * ADC_MAX && c0 * sum == 2.0 * kD
    ensures c0 * ADC_MAX - c1 * b == b
  {
    assert (c0 * ADC_MAX - c1 * b - b) * sum == c0 * sum * ADC_MAX - c1 * sum * b - b * sum;
    assert c1 * sum * b == 2.0 * (b * m) - b * sum;
    Cancel(c0 * ADC_MAX - c1 * b - b, sum);
  }

  /** For a filter that swings the bound is what it leaves standing. */
  lemma BoundIsFixed(p: Filter)
    requires Sensible(p) && 0.0 < p.tau && 2.0 * p.tau < p.t
    ensures -Cd0(p) * ADC_MAX - Cd1(p) * Bound(p) == Bound(p)
  {
    var sum, b := 2.0 * p.tau + p.t, Bound(p);
    Coefficients(p);
    assert b * (2.0 * p.tau) == p.kD * ADC_MAX;
    FixedPoint(-Cd0(p), Cd1(p), b, sum, 2.0 * p.tau, p.kD);
    hide Cd0, Cd1, Bound;
  }

  lemma CoefficientBound(p: Filter)
    requires Sensible(p) && 0.0 < p.tau && p.t <= 2.0 * p.tau
    ensures -Cd0(p) * ADC_MAX == Bound(p)
  {
    var sum := 2.0 * p.tau + p.t;
    Coefficients(p);
    assert -Cd0(p) * ADC_MAX * sum == 2.0 * p.kD * ADC_MAX;
    assert Bound(p) * sum == 2.0 * p.kD * ADC_MAX;
    assert (-Cd0(p) * ADC_MAX - Bound(p)) * sum == 0.0;
    Cancel(-Cd0(p) * ADC_MAX - Bound(p), sum);
  }

  lemma GoodIsWithin(p: Filter, m: real, d: real)
    requires Sensible(p) && 0.0 < p.tau && 0.0 <= m <= ADC_MAX && Good(p, m, d)
    ensures Within(d, Bound(p))
  {
    if p.t <= 2.0 * p.tau {
      Coefficients(p);
      var c := -Cd0(p);
      ScaledWithin(c, m, ADC_MAX);
      NonNegativeProduct(c, m);
      assert c * m == -(Cd0(p) * m);
      CoefficientBound(p);
      hide Cd0, Bound;
    }
  }

  /** A derivative of zero is good after any measurement. */
  lemma ZeroIsGood(p: Filter, m: real)
    requires Sensible(p) && 0.0 < p.tau && 0.0 <= m <= ADC_MAX
    ensures Good(p, m, 0.0)
  {
    Coefficients(p);
    if p.t <= 2.0 * p.tau {
      NonNegativeProduct(-Cd0(p), m);
      NonNegativeProduct(-Cd0(p), ADC_MAX - m);
      assert -Cd0(p) * m == -(Cd0(p) * m);
      assert -Cd0(p) * (ADC_MAX - m) == -Cd0(p) * ADC_MAX + Cd0(p) * m;
    } else {
      NonNegativeProduct(p.kD, ADC_MAX);
      var b := Bound(p);
      assert b * (2.0 * p.tau) == p.kD * ADC_MAX;
      SignOfProduct(b, 2.0 * p.tau);
    }
  }

  lemma FilterKeepsGood(p: Filter, m: real, next: real, d: real)
    requires Sensible(p) && 0.0 < p.tau && 0.0 <= m <= ADC_MAX && 0.0 <= next <= ADC_MAX
    requires Good(p, m, d)
    ensures Good(p, next, Filtered(p, next, m, d))
  {
    hide Cd0, Cd1, Bound, Lags, Next;
    Coefficients(p);
    if p.t <= 2.0 * p.tau {
      AverageStep(Cd0(p), Cd1(p), m, next, d);
    } else {
      BoundIsFixed(p);
      SwingStep(Cd0(p), Cd1(p), m, next, d, Bound(p));
    }
  }

  /** Without a derivative gain nothing comes of nothing. */
  lemma NoGain(p: Filter, m: real, mPrev: real)
    requires Sensible(p) && p.kD == 0.0
    ensures Filtered(p, m, mPrev, 0.0) == 0.0
  {
    hide Cd0, Cd1;
    Coefficients(p);
    Cancel(-Cd0(p), 2.0 * p.tau + p.t);
  }

  // ---- without a time constant ----

  lemma NoDamping(p: Filter)
    requires Sensible(p) && p.tau == 0.0
    ensures Cd1(p) == -1.0
    ensures 0.0 < p.kD ==> Cd0(p) < 0.0
  {
    Coefficients(p);
    assert (Cd1(p) + 1.0) * p.t == 0.0;
    Cancel(Cd1(p) + 1.0, p.t);
  }

  /** What n full swings of the measurement add up to. */
  function Swings(c: real, n: nat): real {
    n as real * (c * ADC_MAX)
  }

  lemma NegatedJump(c: real)
    ensures c * (0.0 - ADC_MAX) == -(c * ADC_MAX) && c * (ADC_MAX - 0.0) == c * ADC_MAX
  {}

  lemma OneMore(n: nat, a: real)
    requires 0 < n
    ensures n as real * a == (n - 1) as real * a + a
  {}

  lemma NoSwings(c: real)
    ensures Swings(c, 0) == 0.0
  {}

  lemma JumpAdds(c: real, n: nat, d: real)
    requires 0 < n && d == if n % 2 == 0 then -Swings(c, n - 1) else Swings(c, n - 1)
    ensures n % 2 == 1 ==> c * (0.0 - ADC_MAX) - d == -Swings(c, n)
    ensures n % 2 == 0 ==> c * (ADC_MAX - 0.0) - d == Swings(c, n)
  {
    OneMore(n, c * ADC_MAX);
    NegatedJump(c);
  }

  lemma SwingsExceed(c: real, b: real) returns (n: nat)
    requires c < 0.0
    ensures !Within(Swings(c, n), b) && !Within(-Swings(c, n), b)
  {
    var a := -(c * ADC_MAX);
    if b < 0.0 {
      n := 0;
    } else {
      var q := b / a;
      n := q.Floor + 1;
      PositiveProduct(n as real - q, a);
      assert (n as real - q) * a == n as real * a - q * a;
      TimesQuotient(b, a);
    }
    assert Swings(c, n) == -(n as real * a);
  }
}
