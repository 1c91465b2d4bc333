/** The back-EMF measurement: insertion sort while sampling, then the mean of the middle (core1.c),
    with the cutoff guard of the Rust controller (application/src/motor/mod.rs). */
module TrimmedMean {
  import opened Wire
  import opened Numbers

  // ---- the sort ----

  ghost predicate Sorted(s: seq<nat>) {
    forall i, j :: 0 <= i < j < |s| ==> s[i] <= s[j]
  }

  /** How many entries at the front of s stay before the key: scanning from the back stops at the
      first entry that is not larger. */
  function KeyPosition(s: seq<nat>, key: nat): (p: nat)
    ensures p <= |s|
    ensures p > 0 ==> s[p - 1] <= key
    ensures forall i :: p <= i < |s| ==> key < s[i]
  {
    if s == [] || s[|s| - 1] <= key then |s| else KeyPosition(s[..|s| - 1], key)
  }

  function Insert(s: seq<nat>, key: nat): (r: seq<nat>)
    ensures |r| == |s| + 1
  {
    var p := KeyPosition(s, key);
    s[..p] + [key] + s[p..]
  }

  function Sort(samples: seq<nat>): (r: seq<nat>)
    ensures |r| == |samples|
  {
    if samples == [] then [] else Insert(Sort(samples[..|samples| - 1]), samples[|samples| - 1])
  }

  lemma InsertedAt(s: seq<nat>, key: nat, p: nat)
    requires p <= |s| && KeyPosition(s, key) == p
    ensures |Insert(s, key)| == |s| + 1
    ensures forall k {:trigger Insert(s, key)[k]} :: 0 <= k <= |s| ==>
      Insert(s, key)[k] == if k < p then s[k] else if k == p then key else s[k - 1]
  {}

  lemma InsertSorts(s: seq<nat>, key: nat)
    requires Sorted(s)
    ensures Sorted(Insert(s, key))
  {
    var p := KeyPosition(s, key);
    InsertedAt(s, key, p);
    hide Insert, KeyPosition;
    forall i, j | 0 <= i < j <= |s| ensures Insert(s, key)[i] <= Insert(s, key)[j] {
      assert i < p ==> s[i] <= s[p - 1];
    }
  }

  lemma InsertAdds(s: seq<nat>, key: nat)
    ensures multiset(Insert(s, key)) == multiset(s) + multiset{key}
  {
    var p := KeyPosition(s, key);
    assert s == s[..p] + s[p..];
  }

  lemma {:induction false} SortSorts(samples: seq<nat>)
    ensures Sorted(Sort(samples)) && multiset(Sort(samples)) == multiset(samples)
  {
    if samples != [] {
      var init, key := samples[..|samples| - 1], samples[|samples| - 1];
      SortSorts(init);
      InsertSorts(Sort(init), key);
      InsertAdds(Sort(init), key);
      LastApart(samples);
    }
  }

  lemma SameLastOut(s: seq<nat>, t: seq<nat>)
    requires multiset(s) == multiset(t) && s != [] && t != [] && s[|s| - 1] == t[|t| - 1]
    ensures multiset(s[..|s| - 1]) == multiset(t[..|t| - 1])
  {
    LastApart(s);
    LastApart(t);
    assert multiset(s[..|s| - 1]) == multiset(s) - multiset{s[|s| - 1]};
  }

  lemma LastIsLargest(s: seq<nat>, t: seq<nat>)
    requires Sorted(s) && multiset(s) == multiset(t) && s != [] && t != []
    ensures t[|t| - 1] <= s[|s| - 1]
  {
    assert t[|t| - 1] in multiset(t);
    assert t[|t| - 1] in s;
  }

  /** A sorted permutation is unique, so this is what any sort makes of the samples. */
  lemma {:induction false} SortIsUnique(s: seq<nat>, t: seq<nat>)
    requires Sorted(s) && Sorted(t) && multiset(s) == multiset(t)
    ensures s == t
    decreases |s|
  {
    assert |s| == |multiset(s)| == |multiset(t)| == |t|;
    if s != [] {
      LastIsLargest(s, t);
      LastIsLargest(t, s);
      SameLastOut(s, t);
      SortIsUnique(s[..|s| - 1], t[..|t| - 1]);
      assert s == s[..|s| - 1] + [s[|s| - 1]] && t == t[..|t| - 1] + [t[|t| - 1]];
    }
  }

  // ---- the mean of the middle ----

  /** l samples dropped at the low end and r at the high end. */
  function Middle(samples: seq<nat>, l: nat, r: nat): (m: seq<nat>)
    requires l + r < |samples|
    ensures |m| == |samples| - l - r
  {
    Sort(samples)[l..|samples| - r]
  }

  function Trimmed(samples: seq<nat>, l: nat, r: nat): real
    requires l + r < |samples|
  {
    Sum(Middle(samples, l, r)) as real / (|samples| - l - r) as real
  }

  lemma {:induction false} KeyPositionIs(s: seq<nat>, key: nat, p: nat)
    requires p <= |s| && (p > 0 ==> s[p - 1] <= key)
    requires forall i :: p <= i < |s| ==> key < s[i]
    ensures KeyPosition(s, key) == p
  {
    if p < |s| {
      KeyPositionIs(s[..|s| - 1], key, p);
    }
  }

  /** One step of the insertion sort: larger entries move up until the key fits. */
  method InsertLast(adcVal: array<nat>, i: nat)
    requires i < adcVal.Length
    modifies adcVal
    ensures adcVal[..i + 1] == Insert(old(adcVal[..i]), old(adcVal[i]))
    ensures forall k :: i < k < adcVal.Length ==> adcVal[k] == old(adcVal[k])
  {
    ghost var before := adcVal[..i];
    var key := adcVal[i];
    var j: int := i - 1;
    while j >= 0 && adcVal[j] > key
      invariant -1 <= j < i
      invariant forall k {:trigger adcVal[k]} :: 0 <= k <= j ==> adcVal[k] == before[k]
      invariant forall k :: j + 2 <= k <= i ==> adcVal[k] == before[k - 1]
      invariant forall k :: j < k < i ==> key < before[k]
      invariant forall k :: i < k < adcVal.Length ==> adcVal[k] == old(adcVal[k])
    {
      adcVal[j + 1] := adcVal[j];
      j := j - 1;
    }
    adcVal[j + 1] := key;
    KeyPositionIs(before, key, j + 1);
    InsertedAt(before, key, j + 1);
    hide Insert, KeyPosition;
    assert adcVal[..i + 1] == Insert(before, key);
  }

  /** Sampling and sorting one step at a time, in place. */
  method SortWhileSampling(samples: seq<nat>) returns (adcVal: array<nat>)
    ensures fresh(adcVal) && adcVal[..] == Sort(samples)
  {
    adcVal := new nat[|samples|];
    for i := 0 to |samples|
      invariant adcVal[..i] == Sort(samples[..i])
    {
      adcVal[i] := samples[i];
      assert adcVal[..i] == Sort(samples[..i]);
      InsertLast(adcVal, i);
      assert samples[..i + 1][..i] == samples[..i];
    }
    assert samples[..|samples|] == samples;
  }

  /** The measurement without a guard on the cutoffs: None where it divides zero by zero. */
  function Measured(samples: seq<nat>, l: nat, r: nat): Option<real> {
    if l + r < |samples| then Some(Trimmed(samples, l, r))
    else if l + r == |samples| then None
    else Some(0.0)
  }

  lemma ZeroDivided(x: real)
    requires x != 0.0
    ensures 0.0 / x == 0.0
  {}

  /** core1.c's measure. */
  method Measure(samples: seq<nat>, l: nat, r: nat) returns (res: Option<real>)
    ensures res == Measured(samples, l, r)
  {
    hide Sort;
    var adcVal := SortWhileSampling(samples);
    var sum, i := 0, l;
    while i < |samples| - r
      invariant l <= i <= |samples| - r || i == l >= |samples| - r
      invariant l <= |samples| - r ==> sum == Sum(adcVal[l..i])
      invariant |samples| - r < l ==> sum == 0
    {
      assert adcVal[l..i + 1][..i - l] == adcVal[l..i];
      sum := sum + adcVal[i];
      i := i + 1;
    }
    var left := |samples| - (l + r);
    if left == 0 {
      return None;
    }
    if 0 < left {
      assert adcVal[l..i] == Middle(samples, l, r);
    } else {
      ZeroDivided(left as real);
    }
    res := Some(sum as real / left as real);
  }

  /** The guard: cutoffs that would discard every sample are not used. */
  function GuardedCutoffs(n: nat, l: nat, r: nat): (c: (nat, nat))
    requires 0 < n
    ensures c.0 + c.1 < n
    ensures c == (l, r) <==> l + r < n
    ensures c != (l, r) ==> c == (0, 0)
  {
    if l + r < n then (l, r) else (0, 0)
  }

  /** The sample count is clamped to what the buffer holds. */
  function GuardedCount(emfSamples: nat): (n: nat)
    ensures 1 <= n <= 255
    ensures 1 <= emfSamples <= 255 <==> n == emfSamples
  {
    if emfSamples < 1 then 1 else if emfSamples > 255 then 255 else emfSamples
  }

  // ---- robustness ----

  function CountBelow(s: seq<nat>, lo: nat): (n: nat)
    ensures n <= |s|
  {
    if s == [] then 0 else CountBelow(s[..|s| - 1], lo) + if s[|s| - 1] < lo then 1 else 0
  }

  function CountAbove(s: seq<nat>, hi: nat): (n: nat)
    ensures n <= |s|
  {
    if s == [] then 0 else CountAbove(s[..|s| - 1], hi) + if s[|s| - 1] > hi then 1 else 0
  }

  lemma {:induction false} CountsOfConcat(s: seq<nat>, t: seq<nat>, lo: nat, hi: nat)
    ensures CountBelow(s + t, lo) == CountBelow(s, lo) + CountBelow(t, lo)
    ensures CountAbove(s + t, hi) == CountAbove(s, hi) + CountAbove(t, hi)
  {
    if t == [] {
      assert s + t == s;
    } else {
      assert (s + t)[..|s + t| - 1] == s + t[..|t| - 1];
      CountsOfConcat(s, t[..|t| - 1], lo, hi);
    }
  }

  lemma InsertCounts(s: seq<nat>, key: nat, lo: nat, hi: nat)
    ensures CountBelow(Insert(s, key), lo) == CountBelow(s, lo) + CountBelow([key], lo)
    ensures CountAbove(Insert(s, key), hi) == CountAbove(s, hi) + CountAbove([key], hi)
  {
    hide CountBelow, CountAbove;
    var p := KeyPosition(s, key);
    CountsOfConcat(s[..p], s[p..], lo, hi);
    assert s[..p] + s[p..] == s;
    CountsOfConcat(s[..p], [key], lo, hi);
    CountsOfConcat(s[..p] + [key], s[p..], lo, hi);
  }

  lemma {:induction false} SortKeepsCounts(samples: seq<nat>, lo: nat, hi: nat)
    ensures CountBelow(Sort(samples), lo) == CountBelow(samples, lo)
    ensures CountAbove(Sort(samples), hi) == CountAbove(samples, hi)
  {
    if samples != [] {
      var init, key := samples[..|samples| - 1], samples[|samples| - 1];
      SortKeepsCounts(init, lo, hi);
      InsertCounts(Sort(init), key, lo, hi);
    }
  }

  lemma {:induction false} AllBelow(s: seq<nat>, lo: nat)
    requires forall i :: 0 <= i < |s| ==> s[i] < lo
    ensures CountBelow(s, lo) == |s|
  {
    if s != [] {
      AllBelow(s[..|s| - 1], lo);
    }
  }

  /** In sorted order the entries below a bound come first. */
  lemma {:induction false} BelowComeFirst(s: seq<nat>, lo: nat, i: nat)
    requires Sorted(s) && i < |s|
    ensures s[i] < lo <==> i < CountBelow(s, lo)
  {
    if s[|s| - 1] < lo {
      AllBelow(s, lo);
    } else if i < |s| - 1 {
      BelowComeFirst(s[..|s| - 1], lo, i);
    }
  }

  lemma {:induction false} NoneAbove(s: seq<nat>, hi: nat)
    requires forall i :: 0 <= i < |s| ==> s[i] <= hi
    ensures CountAbove(s, hi) == 0
  {
    if s != [] {
      NoneAbove(s[..|s| - 1], hi);
    }
  }

  /** And the entries above a bound come last. */
  lemma {:induction false} AboveComeLast(s: seq<nat>, hi: nat, i: nat)
    requires Sorted(s) && i < |s|
    ensures s[i] > hi <==> |s| - CountAbove(s, hi) <= i
  {
    if s[|s| - 1] <= hi {
      NoneAbove(s, hi);
    } else if i < |s| - 1 {
      AboveComeLast(s[..|s| - 1], hi, i);
    }
  }

  lemma {:induction false} NoneBelow(s: seq<nat>, lo: nat)
    requires forall i :: 0 <= i < |s| ==> lo <= s[i]
    ensures CountBelow(s, lo) == 0
  {
    if s != [] {
      NoneBelow(s[..|s| - 1], lo);
    }
  }

  lemma PartIsSorted(s: seq<nat>, a: nat, b: nat)
    requires Sorted(s) && a < b <= |s|
    ensures var m := s[a..b]; forall i :: 0 <= i < |m| ==> m[0] <= m[i] <= m[|m| - 1]
  {
    var m := s[a..b];
    forall i | 0 <= i < |m| ensures m[0] <= m[i] <= m[|m| - 1] {
      assert m[i] == s[a + i];
    }
  }

  /** The ends of what is kept, and that nothing in it lies outside them. */
  lemma MiddleEnds(samples: seq<nat>, l: nat, r: nat)
    requires l + r < |samples|
    ensures var s, m := Sort(samples), Middle(samples, l, r);
      && m[0] == s[l] && m[|m| - 1] == s[|s| - r - 1]
      && forall i :: 0 <= i < |m| ==> m[0] <= m[i] <= m[|m| - 1]
  {
    hide Sort;
    var s, m := Sort(samples), Middle(samples, l, r);
    SortSorts(samples);
    assert m == s[l..|s| - r];
    hide Middle;
    PartIsSorted(s, l, |s| - r);
  }

  /** What is kept lies within given bounds exactly when the samples outside them fit into the two
      cutoffs. */
  lemma MiddleWithinExactly(samples: seq<nat>, l: nat, r: nat, lo: nat, hi: nat)
    requires l + r < |samples|
    ensures (forall i :: 0 <= i < |Middle(samples, l, r)| ==> lo <= Middle(samples, l, r)[i] <= hi) <==>
            CountBelow(samples, lo) <= l && CountAbove(samples, hi) <= r
  {
    hide Sorted;
    hide CountBelow, CountAbove, Sort, Middle;
    var s := Sort(samples);
    SortSorts(samples);
    SortKeepsCounts(samples, lo, hi);
    MiddleEnds(samples, l, r);
    BelowComeFirst(s, lo, l);
    AboveComeLast(s, hi, |s| - r - 1);
  }

  lemma QuotientWithin(a: nat, n: nat, lo: nat, hi: nat)
    requires 0 < n && lo * n <= a <= hi * n
    ensures lo as real <= a as real / n as real <= hi as real
  {
    assert (lo * n) as real == lo as real * n as real;
    assert (hi * n) as real == hi as real * n as real;
  }

  /** Robustness: samples outside lo..hi that fit into the cutoffs, whatever their values, leave the
      measurement within lo..hi. */
  lemma TrimmedIsRobust(samples: seq<nat>, l: nat, r: nat, lo: nat, hi: nat)
    requires l + r < |samples|
    requires CountBelow(samples, lo) <= l && CountAbove(samples, hi) <= r
    ensures lo as real <= Trimmed(samples, l, r) <= hi as real
  {
    MiddleWithinExactly(samples, l, r, lo, hi);
    SumWithin(Middle(samples, l, r), lo, hi);
    QuotientWithin(Sum(Middle(samples, l, r)), |samples| - l - r, lo, hi);
  }

  /** For samples between two bounds, none of them zero, the measurement lies between them exactly when
      the cutoffs leave a sample: it is zero or no number otherwise. */
  lemma CutoffsFitExactly(samples: seq<nat>, l: nat, r: nat, lo: nat, hi: nat)
    requires 0 < lo && forall i :: 0 <= i < |samples| ==> lo <= samples[i] <= hi
    ensures l + r < |samples| <==>
      match Measured(samples, l, r) case None => false case Some(x) => lo as real <= x <= hi as real
  {
    if l + r < |samples| {
      NoneBelow(samples, lo);
      NoneAbove(samples, hi);
      TrimmedIsRobust(samples, l, r, lo, hi);
    }
  }

  lemma {:induction false} BadAreFew(samples: seq<nat>, bad: set<nat>, lo: nat, hi: nat)
    requires forall i: nat :: i < |samples| && i !in bad ==> lo <= samples[i] <= hi
    ensures CountBelow(samples, lo) <= |bad| && CountAbove(samples, hi) <= |bad|
  {
    if samples != [] {
      var n: nat := |samples| - 1;
      BadAreFew(samples[..n], bad - {n}, lo, hi);
      if n in bad {
        assert |bad - {n}| == |bad| - 1;
      } else {
        assert bad - {n} == bad;
      }
    }
  }

  /** In terms of which samples may be arbitrary: if all samples outside a set of at most min(l, r)
      positions lie within lo..hi, so does the measurement. */
  lemma ArbitrarySamples(samples: seq<nat>, bad: set<nat>, l: nat, r: nat, lo: nat, hi: nat)
    requires l + r < |samples| && |bad| <= l && |bad| <= r
    requires forall i: nat :: i < |samples| && i !in bad ==> lo <= samples[i] <= hi
    ensures lo as real <= Trimmed(samples, l, r) <= hi as real
  {
    BadAreFew(samples, bad, lo, hi);
    TrimmedIsRobust(samples, l, r, lo, hi);
  }

  /** Samples up to a bound give a measurement up to that bound, if they give one. */
  lemma MeasuredWithin(samples: seq<nat>, l: nat, r: nat, hi: nat)
    requires forall i :: 0 <= i < |samples| ==> samples[i] <= hi
    ensures match Measured(samples, l, r) case None => true case Some(x) => 0.0 <= x <= hi as real
  {
    if l + r < |samples| {
      NoneBelow(samples, 0);
      NoneAbove(samples, hi);
      TrimmedIsRobust(samples, l, r, 0, hi);
    }
  }

  /** Equal samples are measured as what they are. */
  lemma MeasuredConstant(v: nat, n: nat, l: nat, r: nat)
    requires l + r < n
    ensures Measured(seq(n, _ => v), l, r) == Some(v as real)
  {
    var samples := seq(n, _ => v);
    NoneBelow(samples, v);
    NoneAbove(samples, v);
    TrimmedIsRobust(samples, l, r, v, v);
  }

  /** What is measured: with the samples in order, in whatever way they were sorted, the mean of those
      between the l lowest and the r highest. */
  lemma MeasuredIsMeanOfMiddle(samples: seq<nat>, t: seq<nat>, l: nat, r: nat)
    requires Sorted(t) && multiset(t) == multiset(samples) && l + r < |samples|
    ensures |t| == |samples| && Measured(samples, l, r).Some?
    ensures Measured(samples, l, r).value * (|t| - l - r) as real == Sum(t[l..|t| - r]) as real
  {
    hide Sort, Sum, Sorted;
    SortSorts(samples);
    SortIsUnique(t, Sort(samples));
    assert Middle(samples, l, r) == t[l..|t| - r];
    hide Middle;
    TimesQuotient(Sum(t[l..|t| - r]) as real, (|t| - l - r) as real);
  }
}
