/** Ring boundaries of the radar (src/util/ringCalculator.js).
    A calculator is built for a number of rings and a maximum radius; the
    radius of boundary `ring` is the maximum radius scaled by the prefix sum
    of a fixed weight table through `ring`, over the prefix sum through the
    number of rings. */
module RingCalculator {
  import opened JsNumber

  /** Relative thickness of each ring; entry 0 stands for the centre. */
  const Sequence: seq<nat> := [0, 6, 5, 5, 5, 4, 2, 1]

  /** `xs.reduce((previous, current) => previous + current, 0)` */
  function Total(xs: seq<nat>): nat
  {
    if xs == [] then 0 else Total(xs[..|xs| - 1]) + xs[|xs| - 1]
  }

  /** Where `Array.prototype.slice(0, end)` stops on an array of length `len`:
      a negative end counts back from the end, and both are clamped to the array. */
  function SliceEnd(end: int, len: nat): (k: nat)
    ensures k <= len
    ensures 0 <= end ==> k == if end < len then end else len
    ensures end < 0 ==> k == if len + end < 0 then 0 else len + end
  {
    if end < 0 then (if len + end < 0 then 0 else len + end)
    else if end < len then end else len
  }

  /** `sum(length)`: the weights `sequence.slice(0, length + 1)` added up. */
  function Sum(length: int): nat
  {
    Total(Sequence[..SliceEnd(length + 1, |Sequence|)])
  }

  /** `getRadius(ring)` of a calculator built with `numberOfRings` and `maxRadius`. */
  function GetRadius(numberOfRings: int, maxRadius: real, ring: int): (r: Num)
    ensures r.Finite? <==> Sum(numberOfRings) != 0
  {
    Div(Finite(maxRadius * (Sum(ring) as real)), Finite(Sum(numberOfRings) as real))
  }

  /** The running totals of the weight table, written out. */
  const PrefixSums: seq<nat> := [0, 6, 11, 16, 21, 25, 27, 28]

  /** `Total` of a prefix, extended by one more weight. */
  lemma TotalPrefix(k: nat)
    requires k < |Sequence|
    ensures Total(Sequence[..k + 1]) == Total(Sequence[..k]) + Sequence[k]
  {
    assert Sequence[..k + 1][..k] == Sequence[..k];
  }

  /** `sum(n)` is the inclusive prefix sum of the weights through index `n`,
      and because `slice` clamps, every `n` past the table gives the full 28. */
  lemma {:induction false} SumIsPrefixSum(n: int)
    requires n >= 0
    ensures n < |Sequence| ==> Sum(n) == PrefixSums[n]
    ensures n >= |Sequence| - 1 ==> Sum(n) == 28
  {
    if n >= |Sequence| - 1 {
      SumIsPrefixSum(|Sequence| - 2);
      TotalPrefix(|Sequence| - 1);
      assert Sequence[..|Sequence|] == Sequence;
    } else if n == 0 {
      TotalPrefix(0);
    } else {
      SumIsPrefixSum(n - 1);
      TotalPrefix(n);
    }
  }

  /** A zero total: only for `length` 0 or -1 (an empty or all-zero slice)
      and for `length` -8 and below, where the negative end empties the slice. */
  lemma SumZeroIff(n: int)
    ensures Sum(n) == 0 <==> (n == 0 || n == -1 || n <= -8)
  {
    var k := SliceEnd(n + 1, |Sequence|);
    if n >= 0 {
      SumIsPrefixSum(n);
    } else if n == -1 {
      assert k == 0;
    } else if n >= -7 {
      assert k >= 2;
      SumPrefixMonotone(2, k);
      TotalPrefix(1);
      TotalPrefix(0);
    } else {
      assert k <= 1;
      TotalPrefix(0);
    }
  }

  /** Prefix totals of the weights never shrink, since no weight is negative. */
  lemma {:induction false} SumPrefixMonotone(i: nat, j: nat)
    requires i <= j <= |Sequence|
    ensures Total(Sequence[..i]) <= Total(Sequence[..j])
  {
    if i < j {
      SumPrefixMonotone(i, j - 1);
      TotalPrefix(j - 1);
    }
  }

  /** `sum` is non-decreasing in its argument from -1 on. */
  lemma SumMonotone(m: int, n: int)
    requires -1 <= m <= n
    ensures Sum(m) <= Sum(n)
  {
    SumPrefixMonotone(SliceEnd(m + 1, |Sequence|), SliceEnd(n + 1, |Sequence|));
  }

  lemma SumPositive(n: int)
    requires n >= 1
    ensures Sum(n) > 0
  {
    SumZeroIff(n);
  }

  /** With at least one ring the total is positive, so every radius is a finite number. */
  lemma RadiusFinite(numberOfRings: int, maxRadius: real, ring: int)
    requires numberOfRings >= 1
    ensures GetRadius(numberOfRings, maxRadius, ring).Finite?
  {
    SumZeroIff(numberOfRings);
  }

  /** A calculator for no rings divides by a zero total: the radius of boundary
      `ring` is NaN when the numerator is zero too, an infinity otherwise. */
  lemma RadiusWithoutRings(maxRadius: real, ring: int)
    ensures GetRadius(0, maxRadius, ring).NaN? <==> maxRadius == 0.0 || Sum(ring) == 0
    ensures !GetRadius(0, maxRadius, ring).Finite?
  {
    SumIsPrefixSum(0);
  }

  /** The centre is boundary 0: `getRadius(0)` is 0. */
  lemma RadiusAtCentre(numberOfRings: int, maxRadius: real)
    requires numberOfRings >= 1
    ensures GetRadius(numberOfRings, maxRadius, 0) == Finite(0.0)
  {
    SumIsPrefixSum(0);
    RadiusFinite(numberOfRings, maxRadius, 0);
  }

  /** The outermost boundary is the maximum radius. */
  lemma RadiusAtOuterEdge(numberOfRings: int, maxRadius: real)
    requires numberOfRings >= 1
    ensures GetRadius(numberOfRings, maxRadius, numberOfRings) == Finite(maxRadius)
  {
    SumPositive(numberOfRings);
    OuterEdgeOfPositiveTotal(numberOfRings, maxRadius);
  }

  lemma OuterEdgeOfPositiveTotal(numberOfRings: int, maxRadius: real)
    requires Sum(numberOfRings) > 0
    ensures GetRadius(numberOfRings, maxRadius, numberOfRings) == Finite(maxRadius)
  {
    var t := Sum(numberOfRings) as real;
    ScaledBy(numberOfRings, maxRadius, numberOfRings);
    ScaleCancels(maxRadius, t);
  }

  /** Boundaries grow outwards and stay between the centre and the maximum radius. */
  lemma RadiusMonotone(numberOfRings: int, maxRadius: real, r1: int, r2: int)
    requires maxRadius >= 0.0
    requires 0 <= r1 <= r2 <= numberOfRings && 1 <= numberOfRings
    ensures GetRadius(numberOfRings, maxRadius, r1).Finite?
    ensures 0.0 <= GetRadius(numberOfRings, maxRadius, r1).v
    ensures GetRadius(numberOfRings, maxRadius, r1).v <= GetRadius(numberOfRings, maxRadius, r2).v
    ensures GetRadius(numberOfRings, maxRadius, r2).v <= maxRadius
  {
    SumPositive(numberOfRings);
    SumMonotone(r1, r2);
    SumMonotone(r2, numberOfRings);
    MonotoneOfOrderedSums(numberOfRings, maxRadius, r1, r2);
  }

  lemma MonotoneOfOrderedSums(numberOfRings: int, maxRadius: real, r1: int, r2: int)
    requires maxRadius >= 0.0
    requires 0 <= Sum(r1) <= Sum(r2) <= Sum(numberOfRings) && 0 < Sum(numberOfRings)
    ensures GetRadius(numberOfRings, maxRadius, r1).Finite?
    ensures 0.0 <= GetRadius(numberOfRings, maxRadius, r1).v
    ensures GetRadius(numberOfRings, maxRadius, r1).v <= GetRadius(numberOfRings, maxRadius, r2).v
    ensures GetRadius(numberOfRings, maxRadius, r2).v <= maxRadius
  {
    ScaledBy(numberOfRings, maxRadius, r1);
    ScaledBy(numberOfRings, maxRadius, r2);
    ScaleMonotone(maxRadius, Sum(r1) as real, Sum(r2) as real, Sum(numberOfRings) as real);
  }

  /** `getRadius` written out. */
  lemma ScaledBy(numberOfRings: int, maxRadius: real, ring: int)
    ensures GetRadius(numberOfRings, maxRadius, ring)
         == Div(Finite(maxRadius * (Sum(ring) as real)), Finite(Sum(numberOfRings) as real))
  {
  }

  lemma ScaleCancels(m: real, t: real)
    requires t != 0.0
    ensures Div(Finite(m * t), Finite(t)) == Finite(m)
  {
    assert m * t / t == m;
  }

  lemma ScaleMonotone(m: real, s1: real, s2: real, t: real)
    requires 0.0 <= m
    requires 0.0 <= s1 <= s2 <= t && 0.0 < t
    ensures Div(Finite(m * s1), Finite(t)).Finite? && Div(Finite(m * s2), Finite(t)).Finite?
    ensures 0.0 <= Div(Finite(m * s1), Finite(t)).v <= Div(Finite(m * s2), Finite(t)).v <= m
  {
    assert 0.0 <= m * s1 <= m * s2 <= m * t;
    ScaleCancels(m, t);
    DivideMonotone(m * s1, m * s2, t);
    DivideMonotone(m * s2, m * t, t);
  }

  lemma DivideMonotone(a: real, b: real, d: real)
    requires a <= b && d > 0.0
    ensures a / d <= b / d
  {
  }

  /** Nothing rejects more rings than the table has weights: from boundary 7 on
      every boundary lies on the outer edge, so the extra rings have no width. */
  lemma RingsBeyondTableCollapse(numberOfRings: int, maxRadius: real, ring: int)
    requires |Sequence| - 1 <= ring <= numberOfRings
    ensures GetRadius(numberOfRings, maxRadius, ring) == Finite(maxRadius)
  {
    SumIsPrefixSum(ring);
    SumIsPrefixSum(numberOfRings);
  }

  /** Four rings on a 400 pixel radius: the sums are 0, 6, 11, 16 and 21. */
  lemma FourRingExample()
    ensures GetRadius(4, 400.0, 1) == Finite(400.0 * 6.0 / 21.0)
    ensures GetRadius(4, 400.0, 4) == Finite(400.0)
  {
    SumIsPrefixSum(1);
    SumIsPrefixSum(4);
  }
}
