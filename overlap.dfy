/**
 * `calculateOverlap` of gridnav.js: the percentage of one rectangle's
 * cross-axis span that another rectangle's span covers, rounded to an
 * integer.
 */
module Overlap {
  import opened Directions

  /** `Math.min(Math.max(val, min), max)` */
  function Clamp(val: int, min: int, max: int): (r: int)
    ensures r <= max
    ensures min <= max ==> min <= r
    ensures min <= val <= max ==> r == val
    ensures val <= min <= max ==> r == min
    ensures max <= val ==> r == max
  {
    var raised := if val >= min then val else min;
    if raised <= max then raised else max
  }

  /**
   * `Math.round(n / d * 100)` for `d > 0`: the integer nearest to `100 * n / d`,
   * halves rounded up.
   */
  function RoundPercent(n: int, d: int): (r: int)
    requires d > 0
    ensures 2 * d * r <= 200 * n + d < 2 * d * (r + 1)
  {
    (200 * n + d) / (2 * d)
  }

  /** The rounded share is monotone in the covered length. */
  lemma {:induction false} RoundPercentMonotone(n1: int, n2: int, d: int)
    requires d > 0 && n1 <= n2
    ensures RoundPercent(n1, d) <= RoundPercent(n2, d)
  {
    var r1, r2 := RoundPercent(n1, d), RoundPercent(n2, d);
    if r1 > r2 {
      assert 2 * d * (r2 + 1) <= 2 * d * r1 by { MulMono(2 * d, r2 + 1, r1); }
      assert false;
    }
  }

  lemma MulMono(c: int, a: int, b: int)
    requires c >= 0 && a <= b
    ensures c * a <= c * b
  {
  }

  /** The rounded share at the two ends of the range, and where it becomes positive. */
  lemma {:induction false} RoundPercentFacts(n: int, d: int)
    requires d > 0
    ensures RoundPercent(0, d) == 0
    ensures RoundPercent(d, d) == 100
    ensures 0 <= n <= d ==> 0 <= RoundPercent(n, d) <= 100
    ensures RoundPercent(n, d) > 0 <==> 200 * n >= d
  {
    var r := RoundPercent(n, d);
    RoundPercentUnique(0, d, 0);
    RoundPercentUnique(d, d, 100);
    if 0 <= n <= d {
      RoundPercentMonotone(0, n, d);
      RoundPercentMonotone(n, d, d);
    }
    if r > 0 {
      MulMono(2 * d, 1, r);
    } else {
      MulMono(2 * d, r + 1, 1);
    }
  }

  /** The rounding bounds determine the result. */
  lemma RoundPercentUnique(n: int, d: int, q: int)
    requires d > 0
    requires 2 * d * q <= 200 * n + d < 2 * d * (q + 1)
    ensures RoundPercent(n, d) == q
  {
    var r := RoundPercent(n, d);
    if r < q { MulMono(2 * d, r + 1, q); }
    if r > q { MulMono(2 * d, q + 1, r); }
  }

  /**
   * How much of `source`'s cross span, as a rounded percentage of
   * `source[sizeKey]`, lies under `target`'s span. A zero size (where the
   * source divides by zero) and a negative one both give 0.
   */
  function CalculateOverlap(target: Rect, source: Rect, lowerSide: RectKey, upperSide: RectKey, sizeKey: RectKey): (r: int)
    ensures Get(source, sizeKey) <= 0 ==> r == 0
    ensures Get(target, lowerSide) <= Get(target, upperSide) ==> 0 <= r <= 100
    ensures Get(source, sizeKey) == Get(source, upperSide) - Get(source, lowerSide) > 0
              && Get(target, lowerSide) == Get(source, lowerSide)
              && Get(target, upperSide) == Get(source, upperSide)
            ==> r == 100
    ensures Get(target, lowerSide) <= Get(target, upperSide)
              && (Get(target, upperSide) <= Get(source, lowerSide)
                  || Get(target, lowerSide) >= Get(source, lowerSide) + Get(source, sizeKey))
            ==> r == 0
  {
    var size := Get(source, sizeKey);
    var lowerDiff := Get(target, lowerSide) - Get(source, lowerSide);
    var upperDiff := Get(target, upperSide) - Get(source, lowerSide);
    var lowerClamped := Clamp(lowerDiff, 0, size);
    var upperClamped := Clamp(upperDiff, 0, size);
    if size <= 0 then 0
    else
      RoundPercentFacts(upperClamped - lowerClamped, size);
      RoundPercent(upperClamped - lowerClamped, size)
  }

  /** Length of the intersection of the spans `[lo1, hi1]` and `[lo2, hi2]`, 0 when they are apart. */
  function CoveredLength(lo1: int, hi1: int, lo2: int, hi2: int): (n: int)
    ensures n >= 0
  {
    var lo := if lo1 >= lo2 then lo1 else lo2;
    var hi := if hi1 <= hi2 then hi1 else hi2;
    if hi > lo then hi - lo else 0
  }

  /**
   * For a well-formed target span and a source whose size is its span's
   * length, the overlap is the rounded percentage of the source's span that
   * the intersection of the two spans covers; it is positive exactly when
   * that intersection is at least 1/200 of the source's span.
   */
  lemma OverlapIsCoveredShare(target: Rect, source: Rect, lowerSide: RectKey, upperSide: RectKey, sizeKey: RectKey)
    requires Get(target, lowerSide) <= Get(target, upperSide)
    requires Get(source, sizeKey) == Get(source, upperSide) - Get(source, lowerSide) > 0
    ensures var covered := CoveredLength(Get(target, lowerSide), Get(target, upperSide), Get(source, lowerSide), Get(source, upperSide));
      && CalculateOverlap(target, source, lowerSide, upperSide, sizeKey) == RoundPercent(covered, Get(source, sizeKey))
      && (CalculateOverlap(target, source, lowerSide, upperSide, sizeKey) > 0 <==> 200 * covered >= Get(source, sizeKey))
  {
    var covered := CoveredLength(Get(target, lowerSide), Get(target, upperSide), Get(source, lowerSide), Get(source, upperSide));
    RoundPercentFacts(covered, Get(source, sizeKey));
  }

  /** Two rectangles with the same, non-empty cross span score 100 against each other, both ways. */
  lemma IdenticalSpansScoreFull(a: Rect, b: Rect, lowerSide: RectKey, upperSide: RectKey, sizeKey: RectKey)
    requires Get(a, lowerSide) == Get(b, lowerSide) && Get(a, upperSide) == Get(b, upperSide)
    requires Get(a, sizeKey) == Get(a, upperSide) - Get(a, lowerSide) > 0
    requires Get(b, sizeKey) == Get(b, upperSide) - Get(b, lowerSide)
    ensures CalculateOverlap(a, b, lowerSide, upperSide, sizeKey) == 100
    ensures CalculateOverlap(b, a, lowerSide, upperSide, sizeKey) == 100
  {
  }

}
