/** Arithmetic shared by the numeric modules. */
module Numbers {
  type u8 = x: int | 0 <= x < 256

  function Sum(s: seq<nat>): nat {
    if s == [] then 0 else Sum(s[..|s| - 1]) + s[|s| - 1]
  }

  lemma SumOfNone()
    ensures Sum([]) == 0
  {}

  lemma SumSnoc(s: seq<nat>, x: nat)
    ensures Sum(s + [x]) == Sum(s) + x
  {
    assert (s + [x])[..|s|] == s;
  }

  lemma {:induction false} SumWithin(s: seq<nat>, lo: nat, hi: nat)
    requires forall i :: 0 <= i < |s| ==> lo <= s[i] <= hi
    ensures lo * |s| <= Sum(s) <= hi * |s|
  {
    if s != [] {
      SumWithin(s[..|s| - 1], lo, hi);
      assert lo * |s| == lo * (|s| - 1) + lo && hi * |s| == hi * (|s| - 1) + hi;
    }
  }

  lemma {:induction false} SumBoundsEach(s: seq<nat>)
    ensures forall i :: 0 <= i < |s| ==> s[i] <= Sum(s)
  {
    if s != [] {
      SumBoundsEach(s[..|s| - 1]);
    }
  }

  lemma LessFactor(a: int, b: int, y: int)
    requires 0 < y
    ensures a * y < b * y ==> a < b
  {
    if b <= a {
      assert b * y <= a * y;
    }
  }

  lemma FloorBetween(x: int, y: int, lo: int, hi: int)
    requires 0 < y && lo * y <= x < (hi + 1) * y
    ensures lo <= x / y <= hi
  {
    var q, r := x / y, x % y;
    assert x == q * y + r;
    LessFactor(q, hi + 1, y);
    LessFactor(lo, q + 1, y);
    assert (q + 1) * y == q * y + y;
  }

  lemma OneMoreTime(k: nat, d: nat)
    requires 0 < k
    ensures k * d == (k - 1) * d + d && 0 <= (k - 1) * d
  {}

  lemma PositiveProduct(a: real, b: real)
    requires 0.0 < a && 0.0 < b
    ensures 0.0 < a * b
  {}

  lemma QuotientIsNatural(a: nat, b: nat)
    requires 0 < b
    ensures 0 <= a / b
  {}

  /** The highest PWM level: the clock divided by the PWM frequency that CV9 selects. */
  function PwmTop(clockHz: nat, cv9: nat): nat {
    QuotientIsNatural(clockHz, cv9 * 100 + 10_000);
    clockHz / (cv9 * 100 + 10_000)
  }

  lemma PwmTopBetween(clockHz: nat, cv9: nat, lo: nat, hi: nat)
    ensures lo * (cv9 * 100 + 10_000) <= clockHz < (hi + 1) * (cv9 * 100 + 10_000) ==> lo <= PwmTop(clockHz, cv9) <= hi
  {
    if lo * (cv9 * 100 + 10_000) <= clockHz < (hi + 1) * (cv9 * 100 + 10_000) {
      FloorBetween(clockHz, cv9 * 100 + 10_000, lo, hi);
    }
  }

  lemma {:induction false} SumConcat(s: seq<nat>, t: seq<nat>)
    ensures Sum(s + t) == Sum(s) + Sum(t)
  {
    if t == [] {
      assert s + t == s;
    } else {
      assert (s + t)[..|s + t| - 1] == s + t[..|t| - 1];
      SumConcat(s, t[..|t| - 1]);
    }
  }

  lemma SumOfParts(a: seq<nat>, x: nat, b: seq<nat>)
    ensures Sum(a + [x] + b) == Sum(a + b) + x
    ensures multiset(a + [x] + b) == multiset(a + b) + multiset{x}
  {
    hide Sum;
    SumConcat(a + [x], b);
    SumSnoc(a, x);
    SumConcat(a, b);
  }

  lemma LastApart(s: seq<nat>)
    requires s != []
    ensures multiset(s) == multiset(s[..|s| - 1]) + multiset{s[|s| - 1]}
  {
    assert s == s[..|s| - 1] + [s[|s| - 1]];
  }

  lemma SameWithOne(a: multiset<nat>, b: multiset<nat>, x: nat)
    requires a + multiset{x} == b + multiset{x}
    ensures a == b
  {
    assert a == (a + multiset{x}) - multiset{x};
    assert b == (b + multiset{x}) - multiset{x};
  }

  lemma Apart(s: seq<nat>, j: nat)
    requires j < |s|
    ensures s == s[..j] + [s[j]] + s[j + 1..]
  {}

  /** The order of the summands does not matter. */
  lemma {:induction false} SumOfSame(s: seq<nat>, t: seq<nat>)
    requires multiset(s) == multiset(t)
    ensures |s| == |t| && Sum(s) == Sum(t)
  {
    assert |s| == |multiset(s)| == |multiset(t)| == |t|;
    if s != [] {
      var n := |s| - 1;
      assert s[n] in multiset(t);
      var j :| 0 <= j < |t| && t[j] == s[n];
      var rest := t[..j] + t[j + 1..];
      Apart(t, j);
      SumOfParts(t[..j], t[j], t[j + 1..]);
      LastApart(s);
      assert multiset(s[..n]) == multiset(rest) by {
        assert multiset(s[..n]) + multiset{s[n]} == multiset(rest) + multiset{s[n]};
        SameWithOne(multiset(s[..n]), multiset(rest), s[n]);
      }
      SumOfSame(s[..n], rest);
    }
  }

  lemma RoundedDown(a: nat, b: nat)
    requires 0 < b
    ensures a / b * b <= a < a / b * b + b
  {}

  lemma Scale(n: nat, a: nat, b: nat)
    requires a <= b
    ensures n * a <= n * b
  {}

  lemma Rearranged(n: nat, level: nat, a: nat)
    ensures n * (3 * level) == 3 * n * level && n * (2 * a) == 2 * (a * n)
    ensures n * (3 * level + 4) == n * (3 * level + 2) + 2 * n
  {}

  lemma TwiceRounded(n: nat, a: nat, level: nat, sum: nat)
    requires 0 < n && a * n <= sum < a * n + n && level == 2 * a / 3
    ensures 3 * n * level <= 2 * sum < n * (3 * level + 4)
  {
    assert 3 * level <= 2 * a <= 3 * level + 2;
    hide *;
    Scale(n, 3 * level, 2 * a);
    Scale(n, 2 * a, 3 * level + 2);
    Rearranged(n, level, a);
  }

  lemma TimesQuotient(a: real, b: real)
    requires b != 0.0
    ensures a / b * b == a
  {}
}
